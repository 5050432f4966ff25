/** What the two snippet controllers of the snippets plugin share,
    plugins/snippets/snippets/Document.py and the older
    plugins/snippets/snippets/SnippetController.py: the placeholders of the
    inserted snippets, the active snippets, the queues of pending content
    updates and cursor jumps that an idle callback flushes, and the rules by
    which deactivating a snippet, moving to a placeholder and flushing the
    queues change them. Placeholders are identified by number; where their
    marks lie in the buffer is given, at each call, by a function from
    placeholder to offsets. What a placeholder does when it is entered, left,
    updated or removed is recorded as an effect and not modelled further. */
module SnippetsCommon {
  import opened Common

  /** A placeholder object of an inserted snippet; `isEnd` for the
      PlaceholderEnd of tab stop 0. */
  datatype Placeholder = Placeholder(uid: nat, isEnd: bool)

  /** The offsets of a placeholder's begin and end marks. */
  datatype Range = Range(begin: int, end: int)

  /** An active snippet: its number, its End placeholder (the entry under
      tab stop 0 of its placeholder table) and all its placeholders, in the
      order deactivate_snippet visits them. */
  datatype Instance = Instance(uid: nat, endPh: Placeholder, members: seq<Placeholder>)

  /** Where the marks of every placeholder lie at the moment of a call. */
  type Bounds = Placeholder -> Range

  /** A queued cursor jump: the placeholder that was active and the one the
      cursor moved into (None when it left every placeholder). */
  datatype Jump = Jump(from: Placeholder, to: Option<Placeholder>)

  /** What the controller asks of placeholders, snippets and the view. */
  datatype Effect =
    | Leave(p: Placeholder)
    | Enter(p: Placeholder)
    | UpdateContents(p: Placeholder)
    | Removed(p: Placeholder, force: bool)
      /** `snippet.deactivate()` in Document.py; deleting the snippet's
          three marks in SnippetController.py. */
    | SnippetDeactivated(snippet: nat)
    | ScrolledToCursor

  /** The controller's fields: `placeholders`, `active_snippets`,
      `active_placeholder`, `update_placeholders`, `jump_placeholders`,
      `timeout_update_id` (0 for none), the last source id the main loop
      handed out, whether the buffer's change signals are connected, and
      the effects asked for so far. */
  datatype State = State(
    placeholders: seq<Placeholder>,
    snippets: seq<Instance>,
    active: Option<Placeholder>,
    updateQueue: seq<Placeholder>,
    jumpQueue: seq<Jump>,
    timeoutId: nat,
    lastSourceId: nat,
    bufferSignals: bool,
    effects: seq<Effect>)

  /** The cursor lies within the placeholder: begin <= cursor <= end. */
  predicate Contains(r: Range, cursor: int)
  {
    r.begin <= cursor <= r.end
  }

  // ---------------------------------------------------------------------
  // Sequence helpers

  /** The elements of `s` that occur in `t`, in the order of `s`. */
  function FilterIn(s: seq<Placeholder>, t: seq<Placeholder>): (r: seq<Placeholder>)
    ensures |r| <= |s|
  {
    if s == [] then [] else (if s[0] in t then [s[0]] else []) + FilterIn(s[1..], t)
  }

  /** The filter keeps exactly the elements of `s` that occur in `t`. */
  lemma {:induction false} FilterInMembers(s: seq<Placeholder>, t: seq<Placeholder>)
    ensures forall x :: x in FilterIn(s, t) <==> x in s && x in t
  {
    if s != [] {
      FilterInMembers(s[1..], t);
      assert forall x :: x in s <==> x == s[0] || x in s[1..];
    }
  }

  lemma {:induction false} FilterInNoDup(s: seq<Placeholder>, t: seq<Placeholder>)
    requires NoDuplicates(s)
    ensures NoDuplicates(FilterIn(s, t))
  {
    if s != [] {
      FilterInNoDup(s[1..], t);
      FilterInMembers(s[1..], t);
      assert s[0] !in s[1..];
      var tail := FilterIn(s[1..], t);
      var r := FilterIn(s, t);
      if s[0] in t {
        assert r == [s[0]] + tail;
        forall i, j | 0 <= i < j < |r| ensures r[i] != r[j] {
          if i == 0 { assert r[j] == tail[j - 1]; assert tail[j - 1] in s[1..]; }
          else { assert r[i] == tail[i - 1] && r[j] == tail[j - 1]; }
        }
      } else {
        assert r == tail;
      }
    }
  }

  /** `s` after `s.remove(x)` for each `x` of `xs` in turn (Python's
      list.remove takes out the first occurrence). */
  function RemoveEach(s: seq<Placeholder>, xs: seq<Placeholder>): (r: seq<Placeholder>)
    decreases |xs|
  {
    if xs == [] then s else RemoveEach(RemoveFirst(s, xs[0]), xs[1..])
  }

  /** On a list without duplicates, removing each element of `xs` leaves
      exactly the elements not in `xs`. */
  lemma {:induction false} RemoveEachNoDup(s: seq<Placeholder>, xs: seq<Placeholder>)
    requires NoDuplicates(s)
    ensures NoDuplicates(RemoveEach(s, xs))
    ensures forall y :: y in RemoveEach(s, xs) <==> y in s && y !in xs
    decreases |xs|
  {
    if xs != [] {
      RemoveFirstNoDup(s, xs[0]);
      RemoveEachNoDup(RemoveFirst(s, xs[0]), xs[1..]);
      assert forall y :: y in xs <==> y == xs[0] || y in xs[1..];
    }
  }

  /** Whatever the list, removals never bring in a new element. */
  lemma {:induction false} RemoveEachSubset(s: seq<Placeholder>, xs: seq<Placeholder>)
    ensures forall y :: y in RemoveEach(s, xs) ==> y in s
    decreases |xs|
  {
    if xs != [] {
      RemoveEachSubset(RemoveFirst(s, xs[0]), xs[1..]);
    }
  }

  /** Filtering one more element appends it when it is kept. */
  lemma {:induction false} FilterInSnoc(s: seq<Placeholder>, t: seq<Placeholder>, x: Placeholder)
    ensures FilterIn(s + [x], t) == FilterIn(s, t) + (if x in t then [x] else [])
  {
    if s == [] {
      assert (s + [x])[1..] == [];
    } else {
      assert (s + [x])[0] == s[0];
      assert (s + [x])[1..] == s[1..] + [x];
      FilterInSnoc(s[1..], t, x);
    }
  }

  /** Removing one more element is one more list.remove. */
  lemma {:induction false} RemoveEachSnoc(s: seq<Placeholder>, xs: seq<Placeholder>, x: Placeholder)
    ensures RemoveEach(s, xs + [x]) == RemoveFirst(RemoveEach(s, xs), x)
    decreases |xs|
  {
    if xs == [] {
      assert (xs + [x])[1..] == [];
    } else {
      assert (xs + [x])[0] == xs[0];
      assert (xs + [x])[1..] == xs[1..] + [x];
      RemoveEachSnoc(RemoveFirst(s, xs[0]), xs[1..], x);
    }
  }

  /** One UpdateContents effect per placeholder, in order. */
  function UpdateEffects(ps: seq<Placeholder>): (r: seq<Effect>)
    ensures |r| == |ps|
    ensures forall i :: 0 <= i < |ps| ==> r[i] == UpdateContents(ps[i])
  {
    if ps == [] then [] else [UpdateContents(ps[0])] + UpdateEffects(ps[1..])
  }

  /** One Removed effect per placeholder, in order. */
  function RemovedEffects(ps: seq<Placeholder>, force: bool): (r: seq<Effect>)
    ensures |r| == |ps|
    ensures forall i :: 0 <= i < |ps| ==> r[i] == Removed(ps[i], force)
  {
    if ps == [] then [] else [Removed(ps[0], force)] + RemovedEffects(ps[1..], force)
  }

  lemma UpdateEffectsSnoc(ps: seq<Placeholder>, x: Placeholder)
    ensures UpdateEffects(ps + [x]) == UpdateEffects(ps) + [UpdateContents(x)]
  {
    assert UpdateEffects(ps + [x])[|ps|] == UpdateContents((ps + [x])[|ps|]);
  }

  lemma RemovedEffectsSnoc(ps: seq<Placeholder>, x: Placeholder, force: bool)
    ensures RemovedEffects(ps + [x], force) == RemovedEffects(ps, force) + [Removed(x, force)]
  {
    assert RemovedEffects(ps + [x], force)[|ps|] == Removed((ps + [x])[|ps|], force);
  }

  // ---------------------------------------------------------------------
  // Invariants

  /** What both controllers keep: no placeholder or snippet listed twice,
      no snippet owning a placeholder twice, a pending idle callback
      whenever something is queued, and the buffer signals connected
      exactly while a snippet is active. */
  ghost predicate Coherent(st: State)
  {
    && Listed(st)
    && (st.updateQueue != [] || st.jumpQueue != [] ==> st.timeoutId != 0)
    && st.timeoutId <= st.lastSourceId
  }

  /** The part of Coherent that does not mention the idle callback. */
  ghost predicate Listed(st: State)
  {
    && NoDuplicates(st.placeholders)
    && NoDuplicates(st.snippets)
    && (forall s :: s in st.snippets ==> NoDuplicates(s.members))
    && (st.bufferSignals <==> st.snippets != [])
  }

  /** What Document.py adds: every queued content update names a
      placeholder still in use, and none is queued twice. */
  ghost predicate QueueClean(st: State)
  {
    NoDuplicates(st.updateQueue) && forall p :: p in st.updateQueue ==> p in st.placeholders
  }

  // ---------------------------------------------------------------------
  // deactivate_snippet

  /** The state after deactivate_snippet(s, force) (Document.py lines
      486-520, SnippetController.py lines 431-466): each placeholder of `s`
      still in use is updated first when a content update is queued for it
      (and that update is dequeued), then removed, clearing the active
      placeholder when it is among them; then the snippet is deactivated
      and dropped, and the buffer signals are disconnected when no snippet
      remains. */
  function Deactivated(st: State, s: Instance, force: bool): State
  {
    var listed := FilterIn(s.members, st.placeholders);
    var queued := FilterIn(listed, st.updateQueue);
    var remaining := RemoveFirst(st.snippets, s);
    State(RemoveEach(st.placeholders, listed), remaining,
          if st.active.Some? && st.active.value in listed then None else st.active,
          RemoveEach(st.updateQueue, queued), st.jumpQueue, st.timeoutId, st.lastSourceId,
          st.bufferSignals && remaining != [],
          st.effects + UpdateEffects(queued) + RemovedEffects(listed, force) + [SnippetDeactivated(s.uid)])
  }

  /** Deactivating an active snippet keeps the invariants, takes out every
      one of its placeholders and nothing else, clears the active
      placeholder exactly when it belonged to the snippet, and dequeues
      nothing but the snippet's own updates. */
  lemma DeactivatedFacts(st: State, s: Instance, force: bool)
    requires Listed(st) && s in st.snippets
    ensures Listed(Deactivated(st, s, force))
    ensures Coherent(st) ==> Coherent(Deactivated(st, s, force))
    ensures QueueClean(st) ==> QueueClean(Deactivated(st, s, force))
    ensures forall p :: p in Deactivated(st, s, force).placeholders <==> p in st.placeholders && p !in s.members
    ensures forall t :: t in Deactivated(st, s, force).snippets <==> t in st.snippets && t != s
    ensures Deactivated(st, s, force).active ==
              if st.active.Some? && st.active.value in s.members && st.active.value in st.placeholders
              then None else st.active
    ensures forall p :: p in Deactivated(st, s, force).updateQueue ==> p in st.updateQueue
    ensures forall p :: p in st.updateQueue && p !in s.members ==> p in Deactivated(st, s, force).updateQueue
    ensures IsPrefix(st.effects, Deactivated(st, s, force).effects)
    ensures Deactivated(st, s, force).timeoutId == st.timeoutId
    ensures Deactivated(st, s, force).lastSourceId == st.lastSourceId
    ensures Deactivated(st, s, force).jumpQueue == st.jumpQueue
  {
    var listed := FilterIn(s.members, st.placeholders);
    var queued := FilterIn(listed, st.updateQueue);
    var r := Deactivated(st, s, force);
    FilterInMembers(s.members, st.placeholders);
    FilterInMembers(listed, st.updateQueue);
    RemoveEachNoDup(st.placeholders, listed);
    RemoveFirstNoDup(st.snippets, s);
    RemoveEachSubset(st.updateQueue, queued);
    RemoveEachKeeps(st.updateQueue, queued);
    if QueueClean(st) {
      RemoveEachNoDup(st.updateQueue, queued);
    }
    PrefixOfAppend(st.effects, UpdateEffects(queued) + RemovedEffects(listed, force) + [SnippetDeactivated(s.uid)]);
  }

  lemma PrefixOfAppend<T>(p: seq<T>, q: seq<T>)
    ensures IsPrefix(p, p + q)
  {
    assert (p + q)[..|p|] == p;
  }

  lemma PrefixTrans<T>(p: seq<T>, q: seq<T>, r: seq<T>)
    requires IsPrefix(p, q) && IsPrefix(q, r)
    ensures IsPrefix(p, r)
  {
    assert r[..|p|] == q[..|p|];
  }

  /** An element that is not removed survives the removals. */
  lemma {:induction false} RemoveEachKeeps(s: seq<Placeholder>, xs: seq<Placeholder>)
    ensures forall y :: y in s && y !in xs ==> y in RemoveEach(s, xs)
    decreases |xs|
  {
    if xs != [] {
      forall y | y in s && y != xs[0] ensures y in RemoveFirst(s, xs[0]) {
        RemoveFirstKeeps(s, xs[0], y);
      }
      RemoveEachKeeps(RemoveFirst(s, xs[0]), xs[1..]);
    }
  }

  lemma {:induction false} RemoveFirstKeeps(s: seq<Placeholder>, x: Placeholder, y: Placeholder)
    requires y in s && y != x
    ensures y in RemoveFirst(s, x)
  {
    if s[0] != x && s[0] != y {
      RemoveFirstKeeps(s[1..], x, y);
    }
  }

  // ---------------------------------------------------------------------
  // goto_placeholder

  /** The first active snippet whose End placeholder is `e`. */
  function EndOwner(snippets: seq<Instance>, e: Placeholder): (r: Option<nat>)
    ensures r.Some? ==> r.value < |snippets| && snippets[r.value].endPh == e
                        && forall j :: 0 <= j < r.value ==> snippets[j].endPh != e
    ensures r.None? ==> forall j :: 0 <= j < |snippets| ==> snippets[j].endPh != e
  {
    if snippets == [] then None
    else if snippets[0].endPh == e then Some(0)
    else match EndOwner(snippets[1..], e)
         case None => None
         case Some(k) => Some(k + 1)
  }

  /** The search of goto_placeholder for the snippet that `e` ends: the
      index of the first one, or the length of the list when none does. */
  method FindEndOwner(snippets: seq<Instance>, e: Placeholder) returns (k: nat)
    ensures k <= |snippets|
    ensures k < |snippets| ==> EndOwner(snippets, e) == Some(k)
    ensures k == |snippets| ==> EndOwner(snippets, e).None?
  {
    k := 0;
    while k < |snippets| && snippets[k].endPh != e
      invariant k <= |snippets|
      invariant forall j :: 0 <= j < k ==> snippets[j].endPh != e
    {
      k := k + 1;
    }
    if k < |snippets| {
      EndOwnerAt(snippets, e, k);
    }
  }

  lemma {:induction false} EndOwnerAt(snippets: seq<Instance>, e: Placeholder, k: nat)
    requires k < |snippets| && snippets[k].endPh == e
    requires forall j :: 0 <= j < k ==> snippets[j].endPh != e
    ensures EndOwner(snippets, e) == Some(k)
  {
    if k > 0 {
      EndOwnerAt(snippets[1..], e, k - 1);
    }
  }

  /** The End placeholder goto_placeholder finishes on: `next` when it is
      an End, else `current` when that is one. */
  function LastEnd(current: Option<Placeholder>, next: Option<Placeholder>): (r: Option<Placeholder>)
    ensures r.Some? ==> r.value.isEnd && (r == next || r == current)
    ensures r.None? <==> (current.None? || !current.value.isEnd) && (next.None? || !next.value.isEnd)
  {
    if next.Some? && next.value.isEnd then next
    else if current.Some? && current.value.isEnd then current
    else None
  }

  function LeaveOf(p: Option<Placeholder>): seq<Effect>
  {
    if p.Some? then [Leave(p.value)] else []
  }

  function EnterOf(p: Option<Placeholder>): seq<Effect>
  {
    if p.Some? then [Enter(p.value)] else []
  }

  /** The state after goto_placeholder(current, next) (Document.py lines
      295-322, SnippetController.py lines 237-264): `current` is left,
      `next` becomes the active placeholder and is entered, and when either
      is an End placeholder the first snippet it ends is deactivated; then
      the view scrolls to the cursor. goto_placeholder answers whether
      there was a `next`. */
  function Goto(st: State, current: Option<Placeholder>, next: Option<Placeholder>): State
  {
    var st1 := st.(active := next, effects := st.effects + LeaveOf(current) + EnterOf(next));
    var last := LastEnd(current, next);
    var st2 := if last.Some? && EndOwner(st1.snippets, last.value).Some?
               then Deactivated(st1, st1.snippets[EndOwner(st1.snippets, last.value).value], false)
               else st1;
    st2.(effects := st2.effects + [ScrolledToCursor])
  }

  /** Moving to a placeholder keeps the invariants and changes neither the
      idle callback nor the jump queue; when neither placeholder is an End
      placeholder the snippets and placeholders stay as they were and
      `next` becomes the active placeholder. */
  lemma GotoFacts(st: State, current: Option<Placeholder>, next: Option<Placeholder>)
    requires Listed(st)
    ensures Listed(Goto(st, current, next))
    ensures Coherent(st) ==> Coherent(Goto(st, current, next))
    ensures QueueClean(st) ==> QueueClean(Goto(st, current, next))
    ensures forall p :: p in Goto(st, current, next).updateQueue ==> p in st.updateQueue
    ensures forall p :: p in Goto(st, current, next).placeholders ==> p in st.placeholders
    ensures forall t :: t in Goto(st, current, next).snippets ==> t in st.snippets
    ensures IsPrefix(st.effects, Goto(st, current, next).effects)
    ensures Goto(st, current, next).timeoutId == st.timeoutId
    ensures Goto(st, current, next).lastSourceId == st.lastSourceId
    ensures Goto(st, current, next).jumpQueue == st.jumpQueue
    ensures LastEnd(current, next).None? ==>
              Goto(st, current, next).placeholders == st.placeholders
              && Goto(st, current, next).snippets == st.snippets
              && Goto(st, current, next).active == next
  {
    var st1 := st.(active := next, effects := st.effects + LeaveOf(current) + EnterOf(next));
    var last := LastEnd(current, next);
    if last.Some? && EndOwner(st1.snippets, last.value).Some? {
      var owner := st1.snippets[EndOwner(st1.snippets, last.value).value];
      var st2 := Deactivated(st1, owner, false);
      DeactivatedFacts(st1, owner, false);
      PrefixOfAppend(st.effects, LeaveOf(current) + EnterOf(next));
      PrefixOfAppend(st2.effects, [ScrolledToCursor]);
      PrefixTrans(st.effects, st1.effects, st2.effects);
      PrefixTrans(st.effects, st2.effects, st2.effects + [ScrolledToCursor]);
    } else {
      PrefixOfAppend(st.effects, LeaveOf(current) + EnterOf(next) + [ScrolledToCursor]);
    }
  }

  /** Reaching an End placeholder ends the first snippet it belongs to:
      that snippet is no longer active and none of its placeholders is
      still in use. */
  lemma GotoEndsOwner(st: State, current: Option<Placeholder>, next: Option<Placeholder>, k: nat)
    requires Listed(st)
    requires k < |st.snippets| && LastEnd(current, next) == Some(st.snippets[k].endPh)
    requires forall j :: 0 <= j < k ==> st.snippets[j].endPh != st.snippets[k].endPh
    ensures st.snippets[k] !in Goto(st, current, next).snippets
    ensures forall p :: p in st.snippets[k].members ==> p !in Goto(st, current, next).placeholders
  {
    var e := st.snippets[k].endPh;
    var o := EndOwner(st.snippets, e);
    assert o == Some(k);
    var st1 := st.(active := next, effects := st.effects + LeaveOf(current) + EnterOf(next));
    DeactivatedFacts(st1, st.snippets[k], false);
  }

  // ---------------------------------------------------------------------
  // update_snippet_contents

  /** The queued jumps replayed one after the other. */
  function GotoAll(st: State, jumps: seq<Jump>): State
    decreases |jumps|
  {
    if jumps == [] then st else GotoAll(Goto(st, Some(jumps[0].from), jumps[0].to), jumps[1..])
  }

  /** The state after the idle callback update_snippet_contents
      (Document.py lines 603-615, SnippetController.py lines 549-561): the
      timeout id is cleared, every queued content update is applied, then
      every queued jump is replayed, then both queues are emptied. */
  function Flush(st: State): State
  {
    var st1 := st.(timeoutId := 0, effects := st.effects + UpdateEffects(st.updateQueue));
    GotoAll(st1, st.jumpQueue).(updateQueue := [], jumpQueue := [])
  }

  lemma {:induction false} GotoAllFacts(st: State, jumps: seq<Jump>)
    requires Listed(st)
    ensures Listed(GotoAll(st, jumps))
    ensures QueueClean(st) ==> QueueClean(GotoAll(st, jumps))
    ensures IsPrefix(st.effects, GotoAll(st, jumps).effects)
    ensures GotoAll(st, jumps).lastSourceId == st.lastSourceId
    ensures GotoAll(st, jumps).timeoutId == st.timeoutId
    decreases |jumps|
  {
    if jumps != [] {
      var g := Goto(st, Some(jumps[0].from), jumps[0].to);
      GotoFacts(st, Some(jumps[0].from), jumps[0].to);
      GotoAllFacts(g, jumps[1..]);
    }
  }

  /** The flush leaves nothing queued and no callback pending, keeps the
      invariants, and asks for every queued content update, in queue
      order, before anything a queued jump does. */
  lemma FlushFacts(st: State)
    requires Coherent(st)
    ensures Coherent(Flush(st))
    ensures QueueClean(st) ==> QueueClean(Flush(st))
    ensures Flush(st).updateQueue == [] && Flush(st).jumpQueue == [] && Flush(st).timeoutId == 0
    ensures IsPrefix(st.effects + UpdateEffects(st.updateQueue), Flush(st).effects)
  {
    var st1 := st.(timeoutId := 0, effects := st.effects + UpdateEffects(st.updateQueue));
    GotoAllFacts(st1, st.jumpQueue);
  }

  // ---------------------------------------------------------------------
  // Shared steps of the buffer callbacks and of apply_snippet

  /** gobject.timeout_add: a fresh, nonzero source id. */
  function Schedule(st: State): State
  {
    st.(timeoutId := st.lastSourceId + 1, lastSourceId := st.lastSourceId + 1)
  }

  lemma NoDupSnoc(s: seq<Placeholder>, x: Placeholder)
    requires NoDuplicates(s) && x !in s
    ensures NoDuplicates(s + [x])
  {
    forall i, j | 0 <= i < j < |s| + 1 ensures (s + [x])[i] != (s + [x])[j] {
      if j == |s| { assert (s + [x])[i] == s[i]; }
    }
  }

  /** The snippet lies outside the cursor: its bounding marks are deleted
      or the cursor is before its begin or after its end. */
  predicate Outside(m: Option<Range>, cursor: int)
  {
    m.None? || cursor < m.value.begin || cursor > m.value.end
  }

  /** The snippets of `snaps` that lie outside the cursor deactivated one
      after the other. */
  function DeactivateOutside(st: State, snaps: seq<Instance>, marks: Instance -> Option<Range>, cursor: int): State
    decreases |snaps|
  {
    if snaps == [] then st
    else DeactivateOutside(if Outside(marks(snaps[0]), cursor) then Deactivated(st, snaps[0], false) else st,
                           snaps[1..], marks, cursor)
  }

  lemma {:induction false} DeactivateOutsideFacts(st: State, snaps: seq<Instance>, marks: Instance -> Option<Range>, cursor: int)
    requires Listed(st) && NoDuplicates(snaps) && forall s :: s in snaps ==> s in st.snippets
    ensures Listed(DeactivateOutside(st, snaps, marks, cursor))
    ensures Coherent(st) ==> Coherent(DeactivateOutside(st, snaps, marks, cursor))
    ensures QueueClean(st) ==> QueueClean(DeactivateOutside(st, snaps, marks, cursor))
    ensures forall s :: s in DeactivateOutside(st, snaps, marks, cursor).snippets <==>
                          s in st.snippets && (s !in snaps || !Outside(marks(s), cursor))
    ensures DeactivateOutside(st, snaps, marks, cursor).timeoutId == st.timeoutId
    ensures DeactivateOutside(st, snaps, marks, cursor).lastSourceId == st.lastSourceId
    ensures DeactivateOutside(st, snaps, marks, cursor).jumpQueue == st.jumpQueue
    decreases |snaps|
  {
    if snaps != [] {
      var s := snaps[0];
      assert s !in snaps[1..] by {
        forall i | 0 <= i < |snaps| - 1 ensures snaps[1..][i] != s {
          assert snaps[1..][i] == snaps[i + 1];
        }
      }
      var st1 := if Outside(marks(s), cursor) then Deactivated(st, s, false) else st;
      if Outside(marks(s), cursor) {
        DeactivatedFacts(st, s, false);
      }
      DeactivateOutsideFacts(st1, snaps[1..], marks, cursor);
    }
  }

  /** The snippet the unseen Snippet.insert_into produced is registered:
      its placeholders join the list, it is appended to the active snippets
      (Document.py line 420, SnippetController.py line 358), and the buffer
      signals are connected (Document.py connects them before, lines
      416-417, when it is the first active snippet). */
  function Inserted(st: State, sn: Instance): State
  {
    st.(placeholders := st.placeholders + sn.members, snippets := st.snippets + [sn], bufferSignals := true)
  }

  lemma InsertedFacts(st: State, sn: Instance)
    requires Coherent(st)
    requires sn !in st.snippets && NoDuplicates(sn.members) && forall p :: p in sn.members ==> p !in st.placeholders
    ensures Coherent(Inserted(st, sn))
    ensures QueueClean(st) ==> QueueClean(Inserted(st, sn))
    ensures (st.bufferSignals == false) <==> |Inserted(st, sn).snippets| == 1
  {
    var r := Inserted(st, sn);
    forall i, j | 0 <= i < j < |r.placeholders| ensures r.placeholders[i] != r.placeholders[j] {
      if j >= |st.placeholders| {
        assert r.placeholders[j] == sn.members[j - |st.placeholders|];
        if i >= |st.placeholders| {
          assert r.placeholders[i] == sn.members[i - |st.placeholders|];
        } else {
          assert r.placeholders[i] in st.placeholders;
        }
      }
    }
    forall i, j | 0 <= i < j < |r.snippets| ensures r.snippets[i] != r.snippets[j] {
      if j == |st.snippets| { assert r.snippets[i] in st.snippets; }
    }
  }

  /** The state deactivate_snippet builds step by step is Deactivated. */
  lemma DeactivatedIs(st: State, s: Instance, force: bool, remove: seq<Placeholder>,
                      e1: seq<Effect>, q1: seq<Placeholder>, r: State)
    requires remove == FilterIn(s.members, st.placeholders)
    requires e1 == st.effects + UpdateEffects(FilterIn(remove, st.updateQueue))
    requires q1 == RemoveEach(st.updateQueue, FilterIn(remove, st.updateQueue))
    requires r.updateQueue == q1
    requires r.effects == e1 + RemovedEffects(remove, force) + [SnippetDeactivated(s.uid)]
    requires r.placeholders == RemoveEach(st.placeholders, remove)
    requires r.snippets == RemoveFirst(st.snippets, s)
    requires r.active == if st.active.Some? && st.active.value in remove then None else st.active
    requires r.jumpQueue == st.jumpQueue && r.timeoutId == st.timeoutId && r.lastSourceId == st.lastSourceId
    requires r.bufferSignals == (st.bufferSignals && r.snippets != [])
    ensures r == Deactivated(st, s, force)
  {
  }

  /** The placeholders of a snippet are visited once each. */
  lemma MembersStep(members: seq<Placeholder>, i: nat, t: seq<Placeholder>)
    requires NoDuplicates(members) && i < |members|
    ensures FilterIn(members[..i + 1], t) == FilterIn(members[..i], t) + (if members[i] in t then [members[i]] else [])
    ensures members[i] !in FilterIn(members[..i], t)
  {
    assert members[..i + 1] == members[..i] + [members[i]];
    FilterInSnoc(members[..i], t, members[i]);
    FilterInMembers(members[..i], t);
    forall k | 0 <= k < i ensures members[..i][k] != members[i] {
      assert members[..i][k] == members[k];
    }
  }

  /** One step of deactivate_snippet's first loop: a placeholder not yet
      collected is still queued exactly when it was queued at the start,
      and collecting it extends the dequeued updates by it when it was. */
  lemma CollectStep(q0: seq<Placeholder>, remove: seq<Placeholder>, p: Placeholder)
    requires p !in remove
    ensures p in RemoveEach(q0, FilterIn(remove, q0)) <==> p in q0
    ensures FilterIn(remove + [p], q0) == FilterIn(remove, q0) + (if p in q0 then [p] else [])
    ensures RemoveEach(q0, FilterIn(remove + [p], q0)) ==
              if p in q0 then RemoveFirst(RemoveEach(q0, FilterIn(remove, q0)), p)
              else RemoveEach(q0, FilterIn(remove, q0))
    ensures UpdateEffects(FilterIn(remove + [p], q0)) ==
              UpdateEffects(FilterIn(remove, q0)) + (if p in q0 then [UpdateContents(p)] else [])
  {
    var queued := FilterIn(remove, q0);
    FilterInMembers(remove, q0);
    RemoveEachKeeps(q0, queued);
    RemoveEachSubset(q0, queued);
    FilterInSnoc(remove, q0, p);
    if p in q0 {
      UpdateEffectsSnoc(queued, p);
      RemoveEachSnoc(q0, queued, p);
    } else {
      assert FilterIn(remove + [p], q0) == queued;
    }
  }

  // ---------------------------------------------------------------------
  // on_buffer_cursor_moved, as written

  /** on_buffer_cursor_moved (Document.py lines 632-645,
      SnippetController.py lines 578-591) calls `self.deactivate(snippet)`
      for a snippet one of whose bounding marks was deleted; neither class
      has a method of that name, so the handler raises AttributeError as
      soon as the loop reaches such a snippet. `marks` gives the bounding
      offsets of each snippet, None when one of its marks is deleted. */
  predicate CursorMovedRaises(snippets: seq<Instance>, marks: Instance -> Option<Range>)
  {
    exists i :: 0 <= i < |snippets| && marks(snippets[i]).None?
  }

  /** A snippet whose begin mark is gone from the buffer: the handler as written
      raises instead of deactivating it. */
  lemma CursorMovedRaisesExample()
    ensures CursorMovedRaises([Instance(1, Placeholder(1, true), [Placeholder(1, true)])],
                              (s: Instance) => None)
  {
    var s := Instance(1, Placeholder(1, true), [Placeholder(1, true)]);
    assert [s][0] == s;
  }

  // ---------------------------------------------------------------------
  // uses_current_word

  const CurrentWordVar: string := "$GEDIT_CURRENT_WORD"

  /** `$GEDIT_CURRENT_WORD` occurs in `t` at `p`. */
  predicate OccursAt(t: string, p: nat)
  {
    p + |CurrentWordVar| <= |t| && t[p..p + |CurrentWordVar|] == CurrentWordVar
  }

  /** Length of the run of backslashes that ends at `p`. */
  function BackslashesBefore(t: string, p: nat): nat
    requires p <= |t|
  {
    if p == 0 || t[p - 1] != '\\' then 0 else 1 + BackslashesBefore(t, p - 1)
  }

  /** BackslashesBefore counts the whole run of backslashes in front of
      `p` and no more. */
  lemma {:induction false} BackslashesBeforeRun(t: string, p: nat)
    requires p <= |t|
    ensures BackslashesBefore(t, p) <= p
    ensures forall k :: p - BackslashesBefore(t, p) <= k < p ==> t[k] == '\\'
    ensures BackslashesBefore(t, p) < p ==> t[p - BackslashesBefore(t, p) - 1] != '\\'
  {
    if p > 0 && t[p - 1] == '\\' {
      BackslashesBeforeRun(t, p - 1);
    }
  }

  /** `$GEDIT_CURRENT_WORD` occurs at `p` with an even run of backslashes,
      so unescaped, in front of it. */
  predicate UnescapedAt(t: string, p: nat)
    requires p <= |t|
  {
    OccursAt(t, p) && BackslashesBefore(t, p) % 2 == 0
  }

  /** uses_current_word (Document.py lines 372-379, SnippetController.py
      lines 314-321): `re.findall('(\\\\*)\\$GEDIT_CURRENT_WORD', text)`
      pairs every occurrence of the variable with the whole run of
      backslashes in front of it, and the snippet uses the current word
      when one of those runs has even length, that is, when the `$` is not
      escaped. The scan keeps the length of the current backslash run. */
  method UsesCurrentWord(text: string) returns (b: bool)
    ensures b <==> exists p :: 0 <= p <= |text| && UnescapedAt(text, p)
  {
    var run := 0;
    var i := 0;
    while i < |text|
      invariant 0 <= i <= |text|
      invariant run == BackslashesBefore(text, i)
      invariant forall p :: 0 <= p < i ==> !UnescapedAt(text, p)
    {
      if OccursAt(text, i) && run % 2 == 0 {
        assert UnescapedAt(text, i);
        return true;
      }
      assert BackslashesBefore(text, i + 1) == if text[i] == '\\' then run + 1 else 0;
      run := if text[i] == '\\' then run + 1 else 0;
      i := i + 1;
    }
    assert !OccursAt(text, |text|);
    return false;
  }

  /** An escaped variable is not a use, a backslash escaped by another one
      leaves the variable in use. */
  lemma UsesCurrentWordExamples()
    ensures BackslashesBefore("\\$GEDIT_CURRENT_WORD", 1) == 1
    ensures BackslashesBefore("\\\\$GEDIT_CURRENT_WORD", 2) == 2 && OccursAt("\\\\$GEDIT_CURRENT_WORD", 2)
  {
    assert "\\\\$GEDIT_CURRENT_WORD"[2..21] == CurrentWordVar;
  }
}
