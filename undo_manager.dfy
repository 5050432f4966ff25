/** The undo manager of gedit/gedit-undo-manager.c: a stack of insert and
    delete actions (most recent first, as the GList it is kept in), a redo
    cursor `next_redo`, typing-merge rules, grouping of the actions of one
    user action by `order_in_group`, and a limit on the number of groups.

    The document the manager writes back to is abstract: its text is a
    string and its cursor an offset (`TextDocument`). */
module GeditUndo {
  import opened Common

  datatype UndoAction =
    | InsertAction(pos: int, text: string, length: int, chars: int, mergeable: bool, order: int)
    | DeleteAction(start: int, end: int, text: string, mergeable: bool, order: int)

  /** The abstract document: `gedit_document_insert_text`,
      `gedit_document_delete_text` and `gedit_document_set_cursor`. An
      offset outside the text leaves the text as it is. */
  class TextDocument {
    var text: string
    var cursor: int

    constructor (t: string)
      ensures text == t && cursor == 0
    {
      text := t;
      cursor := 0;
    }
  }

  function InsertAt(t: string, pos: int, s: string): (r: string)
    ensures 0 <= pos <= |t| ==> |r| == |t| + |s| && r[..pos] == t[..pos] && r[pos..pos + |s|] == s && r[pos + |s|..] == t[pos..]
    ensures !(0 <= pos <= |t|) ==> r == t
  {
    if 0 <= pos <= |t| then t[..pos] + s + t[pos..] else t
  }

  function DeleteRange(t: string, a: int, b: int): (r: string)
    ensures 0 <= a <= b <= |t| ==> |r| == |t| - (b - a) && r[..a] == t[..a] && r[a..] == t[b..]
    ensures !(0 <= a <= b <= |t|) ==> r == t
  {
    if 0 <= a <= b <= |t| then t[..a] + t[b..] else t
  }

  /** What undoing one action does to the text (lines 386-410): a deletion is
      undone by inserting its text back at its start, an insertion by
      deleting `[pos, pos + chars)`. */
  function UndoOne(t: string, a: UndoAction): string
  {
    match a
    case DeleteAction(start, _, text, _, _) => InsertAt(t, start, text)
    case InsertAction(pos, _, _, chars, _, _) => DeleteRange(t, pos, pos + chars)
  }

  /** What redoing one action does to the text (lines 452-476). */
  function RedoOne(t: string, a: UndoAction): string
  {
    match a
    case DeleteAction(start, end, _, _, _) => DeleteRange(t, start, end)
    case InsertAction(pos, text, _, _, _, _) => InsertAt(t, pos, text)
  }

  /** The offset the cursor is put at when the action is undone or redone. */
  function CursorOf(a: UndoAction): int
  {
    if a.DeleteAction? then a.start else a.pos
  }

  /** `a` describes the edit that produced `t`: the inserted text is there,
      the deleted range has the length of the deleted text. */
  predicate Recorded(t: string, a: UndoAction)
  {
    match a
    case InsertAction(pos, text, _, chars, _, _) =>
      chars == |text| && 0 <= pos && pos + chars <= |t| && t[pos..pos + chars] == text
    case DeleteAction(start, end, text, _, _) =>
      0 <= start <= |t| && end == start + |text|
  }

  /** `a` can be performed on `t`: an insertion anywhere in the text, a
      deletion of text that is there. */
  predicate Applicable(t: string, a: UndoAction)
  {
    match a
    case InsertAction(pos, text, _, chars, _, _) => chars == |text| && 0 <= pos <= |t|
    case DeleteAction(start, end, text, _, _) => 0 <= start <= end <= |t| && t[start..end] == text
  }

  lemma RedoUndoOne(t: string, a: UndoAction)
    requires Recorded(t, a)
    ensures Applicable(UndoOne(t, a), a) && RedoOne(UndoOne(t, a), a) == t
  {
    match a
    case InsertAction(pos, text, _, chars, _, _) =>
      assert t == t[..pos] + t[pos..pos + chars] + t[pos + chars..];
    case DeleteAction(start, end, text, _, _) =>
      var u := InsertAt(t, start, text);
      assert u[start..end] == text;
      assert u[..start] + u[end..] == t;
  }

  lemma UndoRedoOne(t: string, a: UndoAction)
    requires Applicable(t, a)
    ensures Recorded(RedoOne(t, a), a) && UndoOne(RedoOne(t, a), a) == t
  {
    match a
    case InsertAction(pos, text, _, chars, _, _) =>
      var u := InsertAt(t, pos, text);
      assert u[..pos] + u[pos + chars..] == t;
    case DeleteAction(start, end, text, _, _) =>
      assert t == t[..start] + t[start..end] + t[end..];
  }

  /** Undoing the actions of `g` in list order (most recent first). */
  function UndoSeq(t: string, g: seq<UndoAction>): string
    decreases |g|
  {
    if g == [] then t else UndoSeq(UndoOne(t, g[0]), g[1..])
  }

  /** Redoing the actions of `g` oldest first, that is from the end of the
      list towards its head. */
  function RedoSeq(t: string, g: seq<UndoAction>): string
    decreases |g|
  {
    if g == [] then t else RedoOne(RedoSeq(t, g[1..]), g[0])
  }

  /** Every action of `g` describes, in turn, the edit that produced the text
      left by undoing the more recent ones. */
  predicate RecordedSeq(t: string, g: seq<UndoAction>)
    decreases |g|
  {
    g == [] || (Recorded(t, g[0]) && RecordedSeq(UndoOne(t, g[0]), g[1..]))
  }

  predicate ApplicableSeq(t: string, g: seq<UndoAction>)
    decreases |g|
  {
    g == [] || (ApplicableSeq(t, g[1..]) && Applicable(RedoSeq(t, g[1..]), g[0]))
  }

  /** Undoing a group and then redoing it gives back the text (the inverse
      edits followed by the original ones). */
  lemma {:induction false} RedoUndoSeq(t: string, g: seq<UndoAction>)
    requires RecordedSeq(t, g)
    ensures RedoSeq(UndoSeq(t, g), g) == t
    decreases |g|
  {
    if g != [] {
      var u := UndoOne(t, g[0]);
      RedoUndoSeq(u, g[1..]);
      RedoUndoOne(t, g[0]);
    }
  }

  /** Redoing a group and then undoing it gives back the text. */
  lemma {:induction false} UndoRedoSeq(t: string, g: seq<UndoAction>)
    requires ApplicableSeq(t, g)
    ensures UndoSeq(RedoSeq(t, g), g) == t
    decreases |g|
  {
    if g != [] {
      var r := RedoSeq(t, g[1..]);
      UndoRedoOne(r, g[0]);
      UndoRedoSeq(t, g[1..]);
    }
  }

  /** Number of stored actions that open a group (`order_in_group == 1`). */
  function GroupCount(acts: seq<UndoAction>): (n: nat)
    ensures n <= |acts|
  {
    if acts == [] then 0 else (if acts[0].order == 1 then 1 else 0) + GroupCount(acts[1..])
  }

  lemma {:induction false} GroupCountAppend(a: seq<UndoAction>, b: seq<UndoAction>)
    ensures GroupCount(a + b) == GroupCount(a) + GroupCount(b)
  {
    if a == [] {
      assert a + b == b;
    } else {
      assert (a + b)[1..] == a[1..] + b;
      GroupCountAppend(a[1..], b);
    }
  }

  lemma GroupCountCons(x: UndoAction, rest: seq<UndoAction>)
    ensures GroupCount([x] + rest) == (if x.order == 1 then 1 else 0) + GroupCount(rest)
  {
    assert ([x] + rest)[1..] == rest;
  }

  lemma GroupCountSplit(s: seq<UndoAction>, i: int)
    requires 0 <= i <= |s|
    ensures GroupCount(s) == GroupCount(s[..i]) + GroupCount(s[i..])
  {
    assert s == s[..i] + s[i..];
    GroupCountAppend(s[..i], s[i..]);
  }

  /** The index at which undo stops when it starts at `i` (lines 379-417):
      the first action at or after `i` that opens its group, or, when the list
      runs out first, the index at which `g_list_nth_data` returns NULL. */
  function UndoStop(acts: seq<UndoAction>, i: int): (k: int)
    requires i >= 0
    ensures k >= i
    ensures k < |acts| ==> acts[k].order <= 1
    ensures k >= |acts| ==> k == if i >= |acts| then i else |acts|
    ensures forall j :: i <= j < k && j < |acts| ==> acts[j].order > 1
    decreases |acts| - i
  {
    if i >= |acts| then i
    else if acts[i].order <= 1 then i
    else UndoStop(acts, i + 1)
  }

  /** The redo cursor after redo has applied the action at `j + 1` (lines
      484-491): it keeps going down while the next action continues its
      group. */
  function RedoStop(acts: seq<UndoAction>, j: int): (k: int)
    requires j < |acts|
    ensures k <= j && (j >= -1 ==> k >= -1)
    ensures k < 0 || acts[k].order <= 1
    ensures forall m :: k < m <= j && m >= 0 ==> acts[m].order > 1
    decreases j + 1
  {
    if j < 0 then j
    else if acts[j].order <= 1 then j
    else RedoStop(acts, j - 1)
  }

  /** Redo from `j` stops at `k` when `k` is a group boundary (or -1) and
      every action above it up to `j` continues its group. */
  lemma {:induction false} RedoStopAt(acts: seq<UndoAction>, j: int, k: int)
    requires -1 <= k <= j < |acts|
    requires k < 0 || acts[k].order <= 1
    requires forall m :: k < m <= j ==> acts[m].order > 1
    ensures RedoStop(acts, j) == k
    decreases j - k
  {
    if k < j {
      RedoStopAt(acts, j - 1, k);
    }
  }

  /** When undo stopped at `k` after starting just past a redo cursor `n`
      that sits at a group boundary, redo from `k` stops again at `n`. */
  lemma UndoThenRedoStops(acts: seq<UndoAction>, n: int)
    requires -1 <= n < |acts| && (n == -1 || acts[n].order <= 1)
    requires UndoStop(acts, n + 1) < |acts|
    ensures RedoStop(acts, UndoStop(acts, n + 1) - 1) == n
  {
    var k := UndoStop(acts, n + 1);
    var m := RedoStop(acts, k - 1);
    // below `n` redo cannot stop, for `n` itself is a group boundary
    assert m >= n;
    // above `n` neither, for undo passed every index up to `k` without a boundary
    assert m <= n by {
      assert m >= 0 ==> acts[m].order <= 1;
      assert forall i :: n + 1 <= i < k ==> acts[i].order > 1;
    }
  }

  function Blank(c: char): bool
  {
    c == ' ' || c == '\t'
  }

  /** `g_utf8_get_char_at (s, i)`; out-of-range offsets read as NUL. */
  function CharAt(s: string, i: int): char
  {
    if 0 <= i < |s| then s[i] else '\0'
  }

  /** `x` with its mergeable flag cleared. */
  function Unmergeable(x: UndoAction): UndoAction
  {
    match x
    case InsertAction(pos, text, length, chars, _, order) => InsertAction(pos, text, length, chars, false, order)
    case DeleteAction(start, end, text, _, order) => DeleteAction(start, end, text, false, order)
  }

  /** `gedit_undo_manager_merge_action` (lines 797-910) on the most recent
      action `last` and the new action `a`: whether `a` was merged into
      `last`, and `last` as it is afterwards. A refused merge leaves `last`
      unmergeable from then on, unless it was unmergeable already. A merged
      action keeps its kind, its order and its flag, and its text is the two
      texts joined in document order. */
  function Merge(last: UndoAction, a: UndoAction): (r: (bool, UndoAction))
    ensures r.0 ==> last.mergeable && a.mergeable && a.InsertAction? == last.InsertAction?
    ensures r.1.order == last.order && r.1.InsertAction? == last.InsertAction?
    ensures !r.0 ==> r.1 == Unmergeable(last) && (r.1 == last <==> !last.mergeable)
    ensures r.0 ==> r.1.mergeable
    ensures r.0 && a.InsertAction? ==> a.pos == last.pos + last.chars && r.1.pos == last.pos && r.1.text == last.text + a.text
    ensures r.0 && a.DeleteAction? ==>
      || (a.start == last.start && r.1.start == last.start && r.1.text == last.text + a.text)
      || (a.end == last.start && r.1.start == a.start && r.1.text == a.text + last.text)
  {
    if !last.mergeable then (false, last)
    else if !a.mergeable then (false, Unmergeable(last))
    else
      match (last, a)
      case (DeleteAction(ls, le, lt, lm, lo), DeleteAction(s, e, t, _, _)) =>
        if ls != s && ls != e then (false, Unmergeable(last))
        else if ls == s then
          // deleted with the delete key: the new text follows the old one
          if !Blank(FirstOr(t, '\0')) && Blank(CharAt(lt, le - ls - 1)) then (false, Unmergeable(last))
          else (true, DeleteAction(ls, le + (e - s), lt + t, lm, lo))
        else
          // deleted with the backspace key: the new text precedes the old one
          if !Blank(FirstOr(t, '\0')) && Blank(FirstOr(lt, '\0')) then (false, Unmergeable(last))
          else (true, DeleteAction(s, le, t + lt, lm, lo))
      case (InsertAction(lp, lt, ll, lc, lm, lo), InsertAction(p, t, l, c, _, _)) =>
        if p != lp + lc || (!Blank(FirstOr(t, '\0')) && Blank(CharAt(lt, lc - 1))) then (false, Unmergeable(last))
        else (true, InsertAction(lp, lt + t, ll + l, lc + c, lm, lo))
      case _ => (false, Unmergeable(last))
  }

  /** Typing splits at word starts: a new insertion that does not start with
      a blank is never merged into one that ends with a blank, and text typed
      anywhere but right after the previous insertion is never merged. */
  lemma MergeInsertBoundaries(last: UndoAction, a: UndoAction)
    requires last.InsertAction? && a.InsertAction?
    ensures a.pos != last.pos + last.chars ==> !Merge(last, a).0
    ensures !Blank(FirstOr(a.text, '\0')) && Blank(CharAt(last.text, last.chars - 1)) ==> !Merge(last, a).0
    ensures (last.mergeable && a.mergeable && a.pos == last.pos + last.chars
             && !(!Blank(FirstOr(a.text, '\0')) && Blank(CharAt(last.text, last.chars - 1)))) ==> Merge(last, a).0
  {
  }

  /** Deletions merge only when they touch the previous deletion at its
      start (delete key) or at its end (backspace), and not across a word
      start; an insertion never merges with a deletion. */
  lemma MergeDeleteBoundaries(last: UndoAction, a: UndoAction)
    requires last.DeleteAction? && a.DeleteAction?
    ensures last.start != a.start && last.start != a.end ==> !Merge(last, a).0
    ensures last.start == a.start && !Blank(FirstOr(a.text, '\0')) && Blank(CharAt(last.text, last.end - last.start - 1)) ==> !Merge(last, a).0
    ensures last.start != a.start && !Blank(FirstOr(a.text, '\0')) && Blank(FirstOr(last.text, '\0')) ==> !Merge(last, a).0
    ensures (last.mergeable && a.mergeable && last.start == a.start
             && !(!Blank(FirstOr(a.text, '\0')) && Blank(CharAt(last.text, last.end - last.start - 1)))) ==> Merge(last, a).0
  {
  }

  lemma MergeKinds(last: UndoAction, a: UndoAction)
    requires last.InsertAction? != a.InsertAction?
    ensures !Merge(last, a).0
  {
  }

  /** Merging changes nothing about what undo does: when `last` produced
      `t1` and `a` was then performed on `t1`, giving `t2`, undoing the merged
      action from `t2` gives what undoing `a` and then `last` gives, and the
      merged action describes the edit that produced `t2`. */
  lemma MergePreservesUndo(t1: string, last: UndoAction, a: UndoAction)
    requires Recorded(t1, last) && Applicable(t1, a)
    requires Merge(last, a).0
    ensures Recorded(RedoOne(t1, a), Merge(last, a).1)
    ensures UndoOne(RedoOne(t1, a), Merge(last, a).1) == UndoOne(UndoOne(RedoOne(t1, a), a), last)
  {
    var t2 := RedoOne(t1, a);
    UndoRedoOne(t1, a);
    if a.InsertAction? {
      InsertAfterInsert(t1, last.pos, last.text, a.text);
    } else if last.start == a.start {
      InsertConcat(t2, a.start, last.text, a.text);
    } else {
      InsertSplit(t2, a.start, a.text, last.text);
    }
  }

  /** Typing `y` just after the inserted `x`: the two insertions read as one
      and deleting them both leaves what deleting `x` left. */
  lemma InsertAfterInsert(t1: string, p: int, x: string, y: string)
    requires 0 <= p && p + |x| <= |t1| && t1[p..p + |x|] == x
    ensures InsertAt(t1, p + |x|, y)[p..p + |x| + |y|] == x + y
    ensures DeleteRange(InsertAt(t1, p + |x|, y), p, p + |x| + |y|) == DeleteRange(t1, p, p + |x|)
  {
    var q := p + |x|;
    var t2 := InsertAt(t1, q, y);
    assert t2 == t1[..q] + y + t1[q..];
    assert t2[p..q + |y|] == t1[p..q] + y;
    assert t2[..p] == t1[..p];
    assert t2[q + |y|..] == t1[q..];
  }

  /** Inserting `x + y` at `s` is inserting `y` and then `x` at the same
      offset. */
  lemma InsertConcat(t: string, s: int, x: string, y: string)
    requires 0 <= s <= |t|
    ensures InsertAt(t, s, x + y) == InsertAt(InsertAt(t, s, y), s, x)
  {
    var u := InsertAt(t, s, y);
    assert u[..s] == t[..s] && u[s..] == y + t[s..];
  }

  /** Inserting `x + y` at `s` is inserting `x` at `s` and then `y` right
      after it. */
  lemma InsertSplit(t: string, s: int, x: string, y: string)
    requires 0 <= s <= |t|
    ensures InsertAt(t, s, x + y) == InsertAt(InsertAt(t, s, x), s + |x|, y)
  {
    var u := InsertAt(t, s, x);
    assert u[..s + |x|] == t[..s] + x && u[s + |x|..] == t[s..];
    ConcatAssoc(t[..s], x, y);
  }

  /** Every action has a positive order in its group. */
  predicate OrdersPositive(acts: seq<UndoAction>)
  {
    forall i :: 0 <= i < |acts| ==> acts[i].order >= 1
  }

  /** The list once the redo history is thrown away (lines 661-672): with
      the redo cursor at `n >= 0`, the `n + 1` most recent actions go. */
  function DropRedo(acts: seq<UndoAction>, n: int): (r: seq<UndoAction>)
    ensures n < 0 ==> r == acts
    ensures n >= 0 ==> r == acts[Min(n + 1, |acts|)..]
  {
    if n >= 0 then acts[Min(n + 1, |acts|)..] else acts
  }

  /** The list and the count of actions in the current group once `a` has
      been recorded on `acts` (lines 674-692): the head of the list is `a`
      merged into it, or `a` with the next order of the current group in
      front of the head as `Merge` leaves it. */
  function Pushed(acts: seq<UndoAction>, a: UndoAction, aicg: int): (seq<UndoAction>, int)
  {
    if acts != [] && Merge(acts[0], a).0 then ([Merge(acts[0], a).1] + acts[1..], aicg)
    else
      var base := if acts == [] then [] else [Merge(acts[0], a).1] + acts[1..];
      ([a.(order := aicg + 1)] + base, aicg + 1)
  }

  /** Recording an action keeps every order positive and the list grows by
      one action exactly when the action was not merged. */
  lemma PushedOrders(acts: seq<UndoAction>, a: UndoAction, aicg: int)
    requires OrdersPositive(acts) && aicg >= 0
    ensures OrdersPositive(Pushed(acts, a, aicg).0)
    ensures Pushed(acts, a, aicg).1 >= aicg
    ensures |Pushed(acts, a, aicg).0| == |acts| + (if Pushed(acts, a, aicg).1 == aicg then 0 else 1)
    ensures Pushed(acts, a, aicg).1 == aicg ==> acts != [] && Merge(acts[0], a).0
  {
  }

  /** The condition on which the size limit stops cutting (line 781): the
      oldest remaining action opens a group and there are no more groups
      than allowed. */
  predicate ListSizeStop(acts: seq<UndoAction>, undoLevels: int)
    requires acts != []
  {
    acts[|acts| - 1].order <= 1 && GroupCount(acts) <= undoLevels
  }

  /** The loop of lines 760-782: cut the oldest action, and keep cutting
      while the remaining oldest action continues a group or there are too
      many groups; an emptied list ends it. */
  function DropGroups(acts: seq<UndoAction>, undoLevels: int): seq<UndoAction>
    requires acts != []
    decreases |acts|
  {
    var rest := acts[..|acts| - 1];
    if rest == [] then []
    else if rest[|rest| - 1].order > 1 || GroupCount(rest) > undoLevels then DropGroups(rest, undoLevels)
    else rest
  }

  /** `gedit_undo_manager_check_list_size`: nothing happens when the limit
      is below one or not exceeded. */
  function TrimOldest(acts: seq<UndoAction>, undoLevels: int): seq<UndoAction>
  {
    if undoLevels < 1 || GroupCount(acts) <= undoLevels || acts == [] then acts
    else DropGroups(acts, undoLevels)
  }

  /** `DropGroups` keeps the longest proper prefix on which the loop stops,
      and empties the list if there is none. */
  lemma {:induction false} DropGroupsSpec(acts: seq<UndoAction>, undoLevels: int)
    requires acts != []
    ensures var r := DropGroups(acts, undoLevels);
      && IsPrefix(r, acts) && |r| < |acts|
      && (r != [] ==> ListSizeStop(r, undoLevels))
      && (forall m :: |r| < m < |acts| ==> !ListSizeStop(acts[..m], undoLevels))
    decreases |acts|
  {
    var rest := acts[..|acts| - 1];
    if rest != [] && (rest[|rest| - 1].order > 1 || GroupCount(rest) > undoLevels) {
      DropGroupsSpec(rest, undoLevels);
      var r := DropGroups(rest, undoLevels);
      forall m | |r| < m < |acts|
        ensures !ListSizeStop(acts[..m], undoLevels)
      {
        if m < |rest| {
          assert acts[..m] == rest[..m];
        } else {
          assert acts[..m] == rest;
        }
      }
    }
  }

  /** With a limit of at least one the trimmed list never holds more groups
      than the limit, and when anything was cut its oldest action opens a
      group; what is kept is a prefix, i.e. the most recent actions. */
  lemma TrimOldestBound(acts: seq<UndoAction>, undoLevels: int)
    requires undoLevels >= 1
    ensures IsPrefix(TrimOldest(acts, undoLevels), acts)
    ensures GroupCount(TrimOldest(acts, undoLevels)) <= undoLevels
    ensures TrimOldest(acts, undoLevels) != acts && TrimOldest(acts, undoLevels) != [] ==>
      TrimOldest(acts, undoLevels)[|TrimOldest(acts, undoLevels)| - 1].order <= 1
  {
    if GroupCount(acts) > undoLevels && acts != [] {
      DropGroupsSpec(acts, undoLevels);
    }
  }

  /** Trimming keeps every order positive. */
  lemma TrimOldestOrders(acts: seq<UndoAction>, undoLevels: int)
    requires OrdersPositive(acts)
    ensures OrdersPositive(TrimOldest(acts, undoLevels))
  {
    if undoLevels >= 1 && GroupCount(acts) > undoLevels && acts != [] {
      DropGroupsSpec(acts, undoLevels);
      var r := DropGroups(acts, undoLevels);
      assert forall i :: 0 <= i < |r| ==> r[i] == acts[i];
    }
  }

  class UndoManager {
    const document: TextDocument
    var actions: seq<UndoAction>
    var nextRedo: int
    var actionsInCurrentGroup: int
    var canUndo: bool
    var canRedo: bool
    var runningNotUndoableActions: nat
    var numOfGroups: int

    /** The manager's invariant: `num_of_groups` counts the stored actions
        that open a group, every stored action has a positive order, and the
        redo cursor, when it points at an action, points at a group
        boundary. */
    ghost predicate Valid()
      reads this`numOfGroups, this`actions, this`actionsInCurrentGroup, this`nextRedo
    {
      && numOfGroups == GroupCount(actions)
      && OrdersPositive(actions)
      && actionsInCurrentGroup >= 0
      && nextRedo >= -1
      && (0 <= nextRedo < |actions| ==> actions[nextRedo].order <= 1)
    }

    /** `gedit_undo_manager_init` and `gedit_undo_manager_new`. */
    constructor (doc: TextDocument)
      ensures Valid() && document == doc
      ensures actions == [] && nextRedo == 0 && !canUndo && !canRedo
      ensures runningNotUndoableActions == 0 && numOfGroups == 0 && actionsInCurrentGroup == 0
    {
      document := doc;
      actions := [];
      nextRedo := 0;
      actionsInCurrentGroup := 0;
      canUndo := false;
      canRedo := false;
      runningNotUndoableActions := 0;
      numOfGroups := 0;
    }

    method BeginNotUndoableAction()
      modifies this`runningNotUndoableActions
      ensures runningNotUndoableActions == old(runningNotUndoableActions) + 1
    {
      runningNotUndoableActions := runningNotUndoableActions + 1;
    }

    /** Lines 300-311: refuses to go below zero. */
    method EndNotUndoableActionInternal()
      modifies this`runningNotUndoableActions
      ensures runningNotUndoableActions == if old(runningNotUndoableActions) > 0 then old(runningNotUndoableActions) - 1 else 0
    {
      if runningNotUndoableActions > 0 {
        runningNotUndoableActions := runningNotUndoableActions - 1;
      }
    }

    /** Lines 313-341: ending the outermost not-undoable action forgets the
        whole history. */
    method EndNotUndoableAction()
      requires Valid()
      modifies this
      ensures Valid()
      ensures runningNotUndoableActions == if old(runningNotUndoableActions) > 0 then old(runningNotUndoableActions) - 1 else 0
      ensures runningNotUndoableActions == 0 ==>
        actions == [] && nextRedo == -1 && !canUndo && !canRedo && numOfGroups == 0
      ensures runningNotUndoableActions > 0 ==>
        actions == old(actions) && nextRedo == old(nextRedo) && canUndo == old(canUndo) && canRedo == old(canRedo)
      ensures actionsInCurrentGroup == old(actionsInCurrentGroup)
    {
      EndNotUndoableActionInternal();
      if runningNotUndoableActions == 0 {
        FreeActionList();
        nextRedo := -1;
        canUndo := false;
        canRedo := false;
      }
    }

    /** Lines 509-549: every freed action that opened a group is taken off
        `num_of_groups`. */
    method FreeActionList()
      requires Valid()
      modifies this`actions, this`numOfGroups
      ensures actions == [] && numOfGroups == 0
    {
      var n := 0;
      while n < |actions|
        invariant 0 <= n <= |actions|
        invariant numOfGroups == GroupCount(actions[n..])
      {
        assert actions[n..][1..] == actions[n + 1..];
        if actions[n].order == 1 {
          numOfGroups := numOfGroups - 1;
        }
        n := n + 1;
      }
      actions := [];
    }

    /** Lines 701-736: drops the `n` most recent actions, or all of them when
        there are fewer. */
    method FreeFirstNActions(n: int)
      requires numOfGroups == GroupCount(actions)
      modifies this`actions, this`numOfGroups
      ensures actions == old(actions)[Min(Max(n, 0), |old(actions)|)..]
      ensures numOfGroups == GroupCount(actions)
    {
      if actions == [] {
        return;
      }
      var i := 0;
      ghost var orig := actions;
      while i < n
        invariant 0 <= i <= Max(n, 0) && i <= |orig|
        invariant actions == orig[i..]
        invariant numOfGroups == GroupCount(actions)
        invariant actions != []
      {
        assert actions[1..] == orig[i + 1..];
        if actions[0].order == 1 {
          numOfGroups := numOfGroups - 1;
        }
        actions := actions[1..];
        i := i + 1;
        if actions == [] {
          return;
        }
      }
    }

    /** Lines 738-784: the list after the size limit has been applied is
        `TrimOldest` of the list before. */
    method CheckListSize(undoLevels: int)
      requires numOfGroups == GroupCount(actions)
      modifies this`actions, this`numOfGroups
      ensures actions == TrimOldest(old(actions), undoLevels)
      ensures numOfGroups == GroupCount(actions)
    {
      if undoLevels < 1 {
        return;
      }
      if numOfGroups > undoLevels {
        ghost var orig := actions;
        var done := false;
        while !done
          invariant actions != [] && numOfGroups == GroupCount(actions)
          invariant !done ==> DropGroups(orig, undoLevels) == DropGroups(actions, undoLevels)
          invariant done ==> actions == DropGroups(orig, undoLevels)
          decreases |actions|, !done
        {
          var k := |actions| - 1;
          GroupCountSplit(actions, k);
          assert GroupCount(actions[k..]) == if actions[k].order == 1 then 1 else 0;
          if actions[k].order == 1 {
            numOfGroups := numOfGroups - 1;
          }
          actions := actions[..k];
          if actions == [] {
            return;
          }
          if !(actions[|actions| - 1].order > 1 || numOfGroups > undoLevels) {
            done := true;
          }
        }
      }
    }

    /** Lines 674-692: merge `a` into the most recent action or push it. */
    method PushAction(a: UndoAction)
      requires numOfGroups == GroupCount(actions)
      modifies this`actions, this`numOfGroups, this`actionsInCurrentGroup
      ensures (actions, actionsInCurrentGroup) == Pushed(old(actions), a, old(actionsInCurrentGroup))
      ensures numOfGroups == GroupCount(actions)
    {
      var list := actions;
      var merged := false;
      if list != [] {
        var r := Merge(list[0], a);
        merged := r.0;
        GroupCountCons(list[0], list[1..]);
        GroupCountCons(r.1, list[1..]);
        list := [r.1] + list[1..];
      }
      if !merged {
        actionsInCurrentGroup := actionsInCurrentGroup + 1;
        var action := a.(order := actionsInCurrentGroup);
        GroupCountCons(action, list);
        if action.order == 1 {
          numOfGroups := numOfGroups + 1;
        }
        list := [action] + list;
      }
      actions := list;
    }

    /** Lines 646-699: recording a new action throws the redo history away
        (the actions before the redo cursor and the one at it), merges the
        action into the most recent one or pushes it with the next order of
        the current group, applies the size limit, and leaves the manager
        able to undo and unable to redo. */
    method AddAction(a: UndoAction, undoLevels: int)
      requires Valid()
      modifies this`actions, this`numOfGroups, this`actionsInCurrentGroup, this`nextRedo, this`canUndo, this`canRedo
      ensures Valid()
      ensures actions == TrimOldest(Pushed(DropRedo(old(actions), old(nextRedo)), a, old(actionsInCurrentGroup)).0, undoLevels)
      ensures actionsInCurrentGroup == Pushed(DropRedo(old(actions), old(nextRedo)), a, old(actionsInCurrentGroup)).1
      ensures canUndo && !canRedo && nextRedo == -1
    {
      PushedOrders(DropRedo(actions, nextRedo), a, actionsInCurrentGroup);
      if nextRedo >= 0 {
        FreeFirstNActions(nextRedo + 1);
      }
      nextRedo := -1;
      PushAction(a);
      TrimOldestOrders(actions, undoLevels);
      CheckListSize(undoLevels);
      canUndo := true;
      canRedo := false;
    }

    /** Lines 551-578: an insertion is recorded unless a not-undoable action
        is running; it is mergeable only when it is a single character other
        than a newline. */
    method InsertTextHandler(pos: int, text: string, length: int, undoLevels: int)
      requires Valid()
      modifies this
      ensures Valid()
      ensures old(runningNotUndoableActions) > 0 || Utf8Len(text) != length ==>
        actions == old(actions) && nextRedo == old(nextRedo) && canUndo == old(canUndo) && canRedo == old(canRedo)
      ensures old(runningNotUndoableActions) == 0 && Utf8Len(text) == length ==> canUndo && !canRedo && nextRedo == -1
    {
      if runningNotUndoableActions > 0 {
        return;
      }
      if Utf8Len(text) != length {
        return;
      }
      var mergeable := !(|text| > 1 || FirstOr(text, '\0') == '\n');
      AddAction(InsertAction(pos, text, length, |text|, mergeable, 0), undoLevels);
    }

    /** Lines 580-618: a deletion of the range between two valid offsets,
        in either order, records the deleted text. */
    method DeleteRangeHandler(a: int, b: int, undoLevels: int)
      requires Valid()
      requires 0 <= a <= |document.text| && 0 <= b <= |document.text|
      modifies this
      ensures Valid()
      ensures old(runningNotUndoableActions) > 0 ==>
        actions == old(actions) && nextRedo == old(nextRedo) && canUndo == old(canUndo) && canRedo == old(canRedo)
      ensures old(runningNotUndoableActions) == 0 ==> canUndo && !canRedo && nextRedo == -1
    {
      if runningNotUndoableActions > 0 {
        return;
      }
      var start, end := Min(a, b), Max(a, b);
      var text := document.text[start..end];
      var mergeable := !(end - start > 1 || FirstOr(text, '\0') == '\n');
      AddAction(DeleteAction(start, end, text, mergeable, 0), undoLevels);
    }

    /** Lines 620-632: a user action starts a new group. */
    method BeginUserActionHandler()
      modifies this`actionsInCurrentGroup
      ensures actionsInCurrentGroup == if runningNotUndoableActions > 0 then old(actionsInCurrentGroup) else 0
    {
      if runningNotUndoableActions > 0 {
        return;
      }
      actionsInCurrentGroup := 0;
    }

    /** Lines 366-432. Undo (refused unless `can_undo`) advances the redo
        cursor, reverting each action, until it has reverted one that opens
        its group; it then can redo, and cannot undo once the cursor reaches
        the oldest action. When the list runs out before a group boundary the
        source gives up half-way, leaving the not-undoable counter raised. */
    method Undo()
      requires Valid()
      modifies this`nextRedo, this`canUndo, this`canRedo, this`runningNotUndoableActions, document
      ensures Valid()
      ensures actions == old(actions) && actionsInCurrentGroup == old(actionsInCurrentGroup)
      ensures !old(canUndo) ==>
        && unchanged(document) && nextRedo == old(nextRedo) && !canUndo && canRedo == old(canRedo)
        && runningNotUndoableActions == old(runningNotUndoableActions)
      ensures old(canUndo) ==>
        var k := UndoStop(actions, old(nextRedo) + 1);
        && nextRedo == k
        && document.text == UndoRange(old(document.text), actions, old(nextRedo) + 1, Min(k + 1, |actions|))
        && document.cursor == LastCursor(actions, old(nextRedo) + 1, Min(k + 1, |actions|), old(document.cursor))
        && (k < |actions| ==>
             canRedo && canUndo == (k < |actions| - 1) && runningNotUndoableActions == old(runningNotUndoableActions))
        && (k >= |actions| ==>
             canUndo && canRedo == old(canRedo) && runningNotUndoableActions == old(runningNotUndoableActions) + 1)
    {
      if !canUndo {
        return;
      }
      UndoGroup();
    }

    /** Lines 376-431, the part of Undo past the can-undo test. */
    method UndoGroup()
      requires Valid() && canUndo
      modifies this`nextRedo, this`canUndo, this`canRedo, this`runningNotUndoableActions, document
      ensures Valid()
      ensures actions == old(actions) && actionsInCurrentGroup == old(actionsInCurrentGroup)
      ensures var k := UndoStop(actions, old(nextRedo) + 1);
        && nextRedo == k
        && document.text == UndoRange(old(document.text), actions, old(nextRedo) + 1, Min(k + 1, |actions|))
        && document.cursor == LastCursor(actions, old(nextRedo) + 1, Min(k + 1, |actions|), old(document.cursor))
        && (k < |actions| ==>
             canRedo && canUndo == (k < |actions| - 1) && runningNotUndoableActions == old(runningNotUndoableActions))
        && (k >= |actions| ==>
             canUndo && canRedo == old(canRedo) && runningNotUndoableActions == old(runningNotUndoableActions) + 1)
    {
      var complete := RevertGroup();
      if !complete {
        return;
      }
      EndNotUndoableActionInternal();
      canRedo := true;
      if nextRedo >= |actions| - 1 {
        canUndo := false;
      }
    }

    /** Lines 376-417: begin a not-undoable action, then revert the group;
        `complete` is false when the list ran out first. */
    method RevertGroup() returns (complete: bool)
      requires nextRedo >= -1
      modifies this`nextRedo, this`runningNotUndoableActions, document
      ensures runningNotUndoableActions == old(runningNotUndoableActions) + 1
      ensures var k := UndoStop(actions, old(nextRedo) + 1);
        && nextRedo == k && (complete <==> k < |actions|)
        && document.text == UndoRange(old(document.text), actions, old(nextRedo) + 1, Min(k + 1, |actions|))
        && document.cursor == LastCursor(actions, old(nextRedo) + 1, Min(k + 1, |actions|), old(document.cursor))
    {
      // gedit_undo_manager_begin_not_undoable_action (lines 289-298)
      runningNotUndoableActions := runningNotUndoableActions + 1;
      complete := RevertActions();
    }

    /** The loop of lines 379-417: revert actions from just past the redo
        cursor until one that opens its group has been reverted; `complete`
        is false when the list ran out first. */
    method RevertActions() returns (complete: bool)
      requires nextRedo >= -1
      modifies this`nextRedo, document
      ensures var k := UndoStop(actions, old(nextRedo) + 1);
        && nextRedo == k && (complete <==> k < |actions|)
        && document.text == UndoRange(old(document.text), actions, old(nextRedo) + 1, Min(k + 1, |actions|))
        && document.cursor == LastCursor(actions, old(nextRedo) + 1, Min(k + 1, |actions|), old(document.cursor))
    {
      var acts := actions;
      ghost var t0 := document.text;
      ghost var c0 := document.cursor;
      ghost var first := nextRedo + 1;
      ghost var k := UndoStop(acts, first);
      while true
        invariant acts == actions
        invariant first <= nextRedo + 1 <= k
        invariant nextRedo + 1 <= |acts| || nextRedo + 1 == first
        invariant document.text == UndoRange(t0, acts, first, Min(nextRedo + 1, |acts|))
        invariant document.cursor == LastCursor(acts, first, Min(nextRedo + 1, |acts|), c0)
        decreases |acts| - nextRedo
      {
        nextRedo := nextRedo + 1;
        if nextRedo >= |acts| {
          return false;
        }
        var action := acts[nextRedo];
        RevertOne(t0, acts, first, c0, action);
        if action.order <= 1 {
          return true;
        }
      }
    }

    /** One pass of that loop (lines 386-410): revert `action`, the one at
        the redo cursor, and put the cursor at the start of the edit. */
    method RevertOne(ghost t0: string, ghost acts: seq<UndoAction>, ghost first: int, ghost c0: int, action: UndoAction)
      requires 0 <= first <= nextRedo < |acts| && action == acts[nextRedo]
      requires document.text == UndoRange(t0, acts, first, nextRedo)
      modifies document`text, document`cursor
      ensures document.text == UndoRange(t0, acts, first, nextRedo + 1)
      ensures document.cursor == LastCursor(acts, first, nextRedo + 1, c0)
    {
      document.text := UndoOne(document.text, action);
      document.cursor := CursorOf(action);
    }

    /** Lines 434-507. Redo (refused unless `can_redo` and the cursor points
        at an action) re-applies the action at the cursor and keeps going
        towards the most recent action while the next one continues the
        group; it cannot redo once the cursor falls below zero, and it can
        undo afterwards. */
    method Redo()
      requires Valid()
      modifies this`nextRedo, this`canUndo, this`canRedo, this`runningNotUndoableActions, document
      ensures Valid()
      ensures actions == old(actions) && actionsInCurrentGroup == old(actionsInCurrentGroup)
      ensures runningNotUndoableActions == old(runningNotUndoableActions)
      ensures !(old(canRedo) && 0 <= old(nextRedo) < |actions|) ==>
        unchanged(document) && nextRedo == old(nextRedo) && canUndo == old(canUndo) && canRedo == old(canRedo)
      ensures old(canRedo) && 0 <= old(nextRedo) < |actions| ==>
        var j := RedoStop(actions, old(nextRedo) - 1);
        && nextRedo == j
        && document.text == RedoRange(old(document.text), actions, j + 1, old(nextRedo) + 1)
        && document.cursor == CursorOf(actions[j + 1])
        && canRedo == (j >= 0) && canUndo
    {
      if !canRedo {
        return;
      }
      if !(0 <= nextRedo < |actions|) {
        return;
      }
      BeginNotUndoableAction();
      ReapplyGroup();
      EndNotUndoableActionInternal();
      if nextRedo < 0 {
        canRedo := false;
      }
      if !canUndo {
        canUndo := true;
      }
    }

    /** The loop of lines 444-491: re-apply the action at the redo cursor and
        move the cursor down while the next action continues the group. */
    method ReapplyGroup()
      requires 0 <= nextRedo < |actions|
      modifies this`nextRedo, document
      ensures var j := RedoStop(actions, old(nextRedo) - 1);
        && nextRedo == j
        && document.text == RedoRange(old(document.text), actions, j + 1, old(nextRedo) + 1)
        && document.cursor == CursorOf(actions[j + 1])
    {
      var acts := actions;
      var action := acts[nextRedo];
      ghost var t0 := document.text;
      ghost var top := nextRedo;
      ghost var stop := RedoStop(acts, top - 1);
      while true
        invariant stop < nextRedo <= top
        invariant acts == actions
        invariant action == acts[nextRedo]
        invariant document.text == RedoRange(t0, acts, nextRedo + 1, top + 1)
        invariant nextRedo < top ==> document.cursor == CursorOf(acts[nextRedo + 1])
        decreases nextRedo
      {
        ReapplyOne(t0, acts, top, action);
        if nextRedo < 0 || acts[nextRedo].order <= 1 {
          return;
        }
        action := acts[nextRedo];
      }
    }

    /** One pass of that loop (lines 452-476): re-apply `action`, the one at
        the redo cursor, put the cursor at the start of the edit and move the
        redo cursor down. */
    method ReapplyOne(ghost t0: string, ghost acts: seq<UndoAction>, ghost top: int, action: UndoAction)
      requires 0 <= nextRedo <= top < |acts| && action == acts[nextRedo]
      requires document.text == RedoRange(t0, acts, nextRedo + 1, top + 1)
      modifies this`nextRedo, document`text, document`cursor
      ensures nextRedo == old(nextRedo) - 1
      ensures document.text == RedoRange(t0, acts, nextRedo + 1, top + 1)
      ensures document.cursor == CursorOf(acts[nextRedo + 1])
    {
      document.text := RedoOne(document.text, action);
      document.cursor := CursorOf(action);
      nextRedo := nextRedo - 1;
    }
  }

  /** Undoing `acts[i..j]`, most recent first. */
  function UndoRange(t: string, acts: seq<UndoAction>, i: int, j: int): string
    requires 0 <= i && j <= |acts|
    decreases j
  {
    if j <= i then t else UndoOne(UndoRange(t, acts, i, j - 1), acts[j - 1])
  }

  /** The cursor after undoing `acts[i..j]` from cursor `c`. */
  function LastCursor(acts: seq<UndoAction>, i: int, j: int, c: int): int
    requires 0 <= i && j <= |acts|
  {
    if j <= i then c else CursorOf(acts[j - 1])
  }

  /** Redoing `acts[i..j]`, oldest (highest index) first. */
  function RedoRange(t: string, acts: seq<UndoAction>, i: int, j: int): string
    requires 0 <= i && j <= |acts|
    decreases j - i
  {
    if j <= i then t else RedoOne(RedoRange(t, acts, i + 1, j), acts[i])
  }

  lemma {:induction false} UndoRangeIsUndoSeq(t: string, acts: seq<UndoAction>, i: int, j: int)
    requires 0 <= i <= j <= |acts|
    ensures UndoRange(t, acts, i, j) == UndoSeq(t, acts[i..j])
    decreases j
  {
    if i < j {
      UndoRangeIsUndoSeq(t, acts, i, j - 1);
      UndoSeqSnoc(t, acts, i, j);
    } else {
      assert acts[i..j] == [];
    }
  }

  lemma {:induction false} RedoRangeIsRedoSeq(t: string, acts: seq<UndoAction>, i: int, j: int)
    requires 0 <= i <= j <= |acts|
    ensures RedoRange(t, acts, i, j) == RedoSeq(t, acts[i..j])
    decreases j - i
  {
    if i < j {
      RedoRangeIsRedoSeq(t, acts, i + 1, j);
      assert acts[i..j][1..] == acts[i + 1..j];
    } else {
      assert acts[i..j] == [];
    }
  }

  lemma UndoSeqSnoc(t: string, acts: seq<UndoAction>, i: int, j: int)
    requires 0 <= i < j <= |acts|
    ensures UndoSeq(t, acts[i..j]) == UndoOne(UndoSeq(t, acts[i..j - 1]), acts[j - 1])
    decreases j - i
  {
    if i < j - 1 {
      assert acts[i..j][1..] == acts[i + 1..j];
      assert acts[i..j - 1][1..] == acts[i + 1..j - 1];
      UndoSeqSnoc(UndoOne(t, acts[i]), acts, i + 1, j);
    } else {
      assert acts[i..j] == [acts[i]];
    }
  }

  /** Undoing the most recent undoable group (the actions from just past a
      redo cursor `n` at a group boundary up to the next action that opens a
      group) and redoing it stops redo at `n` again and gives back the text,
      whenever that group describes the edits that produced the text. */
  lemma UndoRedoGroupRoundTrip(t: string, acts: seq<UndoAction>, n: int)
    requires -1 <= n < |acts| && (n == -1 || acts[n].order <= 1)
    requires UndoStop(acts, n + 1) < |acts|
    requires RecordedSeq(t, acts[n + 1..UndoStop(acts, n + 1) + 1])
    ensures var k := UndoStop(acts, n + 1);
      && RedoStop(acts, k - 1) == n
      && RedoRange(UndoRange(t, acts, n + 1, k + 1), acts, n + 1, k + 1) == t
  {
    UndoThenRedoStops(acts, n);
    RangeRoundTrip(t, acts, n + 1, UndoStop(acts, n + 1) + 1);
  }

  /** Undoing the actions `acts[i..j]` over the text they produced and
      redoing them gives the text back. */
  lemma RangeRoundTrip(t: string, acts: seq<UndoAction>, i: int, j: int)
    requires 0 <= i <= j <= |acts| && RecordedSeq(t, acts[i..j])
    ensures RedoRange(UndoRange(t, acts, i, j), acts, i, j) == t
  {
    UndoRangeIsUndoSeq(t, acts, i, j);
    RedoRangeIsRedoSeq(UndoRange(t, acts, i, j), acts, i, j);
    RedoUndoSeq(t, acts[i..j]);
  }
}
