/** The geometry of a GtkTextBuffer the document code relies on: a text as
    a sequence of characters, lines separated by `\n`, positions as
    character offsets; and the search flags and the forward
    search-and-replace loop shared by the two `replace_all`
    implementations. */
module GtkText {
  import opened Common

  /** `gtk_text_iter_get_line`: the line of position `pos`, the number of
      newlines before it. */
  function LineAt(t: string, pos: nat): (n: nat)
    requires pos <= |t|
    ensures n <= pos
  {
    if pos == 0 then 0 else LineAt(t, pos - 1) + (if t[pos - 1] == '\n' then 1 else 0)
  }

  /** `gtk_text_buffer_get_line_count`: an empty text has one line. */
  function LineCount(t: string): (n: nat)
    ensures n >= 1
  {
    1 + LineAt(t, |t|)
  }

  /** The line of a later position is never smaller. */
  lemma {:induction false} LineAtMonotone(t: string, a: nat, b: nat)
    requires a <= b <= |t|
    ensures LineAt(t, a) <= LineAt(t, b)
    decreases b - a
  {
    if a < b {
      LineAtMonotone(t, a, b - 1);
    }
  }

  /** The first position at or after `k` on line `line`. */
  function FirstOfLine(t: string, line: nat, k: nat): (r: nat)
    requires k <= |t| && LineAt(t, k) <= line < LineCount(t)
    ensures k <= r <= |t| && LineAt(t, r) == line
    ensures forall j :: k <= j < r ==> LineAt(t, j) < line
    decreases |t| - k
  {
    if LineAt(t, k) == line then k
    else
      assert k < |t|;
      FirstOfLine(t, line, k + 1)
  }

  /** The offset of the first character of line `line`. */
  function LineStartOf(t: string, line: nat): (r: nat)
    requires line < LineCount(t)
    ensures r <= |t| && LineAt(t, r) == line
    ensures r == 0 || t[r - 1] == '\n'
    ensures forall j :: 0 <= j < r ==> LineAt(t, j) < line
  {
    var r := FirstOfLine(t, line, 0);
    assert r > 0 ==> LineAt(t, r - 1) < line;
    r
  }

  /** The start of the line position `pos` is on. */
  function LineStartAt(t: string, pos: nat): (r: nat)
    requires pos <= |t|
    ensures r <= pos && LineAt(t, r) == LineAt(t, pos)
    ensures r == 0 || t[r - 1] == '\n'
  {
    LineAtMonotone(t, pos, |t|);
    LineStartOf(t, LineAt(t, pos))
  }

  lemma LineStartsIncrease(t: string, line: nat)
    requires line + 1 < LineCount(t)
    ensures LineStartOf(t, line) < LineStartOf(t, line + 1)
  {
    if LineStartOf(t, line + 1) <= LineStartOf(t, line) {
      LineAtMonotone(t, LineStartOf(t, line + 1), LineStartOf(t, line));
    }
  }

  /** `gtk_text_iter_get_chars_in_line`: the characters of the line,
      counting its terminating `\n`. */
  function CharsInLine(t: string, line: nat): (n: nat)
    requires line < LineCount(t)
    ensures LineStartOf(t, line) + n <= |t|
  {
    if line + 1 < LineCount(t) then
      LineStartsIncrease(t, line);
      LineStartOf(t, line + 1) - LineStartOf(t, line)
    else |t| - LineStartOf(t, line)
  }

  /** `gtk_text_buffer_get_iter_at_line` of GTK 2, which takes a line past
      the last one, or a negative one, as the last line. */
  function IterAtLine(t: string, line: int): (r: nat)
    ensures r <= |t|
  {
    if 0 <= line < LineCount(t) then LineStartOf(t, line) else LineStartOf(t, LineCount(t) - 1)
  }

  /** A `gint` compared with a `guint` is converted to unsigned. */
  function AsGuint(x: int): nat
  {
    x % 0x1_0000_0000
  }

  lemma AsGuintFacts(x: int)
    requires -0x8000_0000 <= x < 0x8000_0000
    ensures x >= 0 ==> AsGuint(x) == x
    ensures x < 0 ==> AsGuint(x) >= 0x8000_0000
  {
  }

  /** `s` occurs in `t` at `k`. */
  predicate OccursAt(t: string, s: string, k: nat)
  {
    k + |s| <= |t| && t[k..k + |s|] == s
  }

  /** The first position at or after `i` where `s` occurs in `t` (the
      forward search of GtkSourceView, taken here to be exact and
      case-sensitive). */
  function FindFrom(t: string, s: string, i: nat): (r: Option<nat>)
    ensures r.Some? ==> i <= r.value && OccursAt(t, s, r.value)
    decreases |t| - i
  {
    if i + |s| > |t| then None
    else if t[i..i + |s|] == s then Some(i)
    else FindFrom(t, s, i + 1)
  }

  /** The search misses no occurrence: none lies between `i` and the one
      found, and none at all when nothing is found. */
  lemma {:induction false} FindFromFirst(t: string, s: string, i: nat)
    ensures FindFrom(t, s, i).None? ==> forall k :: i <= k ==> !OccursAt(t, s, k)
    ensures FindFrom(t, s, i).Some? ==> forall k :: i <= k < FindFrom(t, s, i).value ==> !OccursAt(t, s, k)
    decreases |t| - i
  {
    if i + |s| <= |t| && t[i..i + |s|] != s {
      FindFromFirst(t, s, i + 1);
    }
  }

  /** `t` with the `len` characters at `m` replaced by `rep`. */
  function Spliced(t: string, m: nat, len: nat, rep: string): (r: string)
    requires m + len <= |t|
    ensures |r| == |t| - len + |rep|
  {
    t[..m] + rep + t[m + len..]
  }

  /** What a splice keeps and what it puts in. */
  lemma SplicedParts(t: string, m: nat, len: nat, rep: string)
    requires m + len <= |t|
    ensures var r := Spliced(t, m, len, rep);
      r[..m] == t[..m] && r[m..m + |rep|] == rep && r[m + |rep|..] == t[m + len..]
      && r[..m + |rep|] == t[..m] + rep
  {
  }

  /** The text and the count of the replace-all loop after position `i`:
      each match is replaced and the search goes on after the inserted text
      (GTK moves the iterator to the end of an insertion). */
  function ReplaceAllFrom(t: string, s: string, rep: string, i: nat): (string, nat)
    requires |s| > 0
    decreases |t| - i + |s|
  {
    match FindFrom(t, s, i)
    case None => (t, 0)
    case Some(m) =>
      var t' := Spliced(t, m, |s|, rep);
      var (r, n) := ReplaceAllFrom(t', s, rep, m + |rep|);
      (r, n + 1)
  }

  /** One round of the loop: the first match replaced, the search resumed
      after the inserted text. */
  lemma ReplaceAllFromStep(t: string, s: string, rep: string, i: nat, m: nat, t': string)
    requires |s| > 0 && FindFrom(t, s, i) == Some(m)
    requires t' == Spliced(t, m, |s|, rep)
    ensures ReplaceAllFrom(t, s, rep, i).0 == ReplaceAllFrom(t', s, rep, m + |rep|).0
    ensures ReplaceAllFrom(t, s, rep, i).1 == ReplaceAllFrom(t', s, rep, m + |rep|).1 + 1
  {
  }

  /** Each replacement changes the length by the difference of the two
      strings. */
  lemma {:induction false} ReplaceAllFromLength(t: string, s: string, rep: string, i: nat)
    requires |s| > 0
    ensures |ReplaceAllFrom(t, s, rep, i).0| == |t| + ReplaceAllFrom(t, s, rep, i).1 * (|rep| - |s|)
    decreases |t| - i + |s|
  {
    var f := FindFrom(t, s, i);
    if f.Some? {
      var m := f.value;
      var t' := Spliced(t, m, |s|, rep);
      ReplaceAllFromLength(t', s, rep, m + |rep|);
      ReplaceAllFromStep(t, s, rep, i, m, t');
      var n, d := ReplaceAllFrom(t', s, rep, m + |rep|).1, |rep| - |s|;
      MulSucc(n, d);
      assert |ReplaceAllFrom(t, s, rep, i).0| == |t| + d + n * d;
    }
  }

  lemma MulSucc(n: int, d: int)
    ensures (n + 1) * d == n * d + d
  {
  }

  /** The text before the start of the loop is never touched. */
  lemma {:induction false} ReplaceAllFromKeepsPrefix(t: string, s: string, rep: string, i: nat)
    requires |s| > 0 && i <= |t|
    ensures i <= |ReplaceAllFrom(t, s, rep, i).0| && ReplaceAllFrom(t, s, rep, i).0[..i] == t[..i]
    decreases |t| - i + |s|
  {
    var f := FindFrom(t, s, i);
    if f.Some? {
      var m := f.value;
      assert i <= m && m + |s| <= |t|;
      var t' := Spliced(t, m, |s|, rep);
      assert |t'| == |t| - |s| + |rep|;
      ReplaceAllFromKeepsPrefix(t', s, rep, m + |rep|);
      var r := ReplaceAllFrom(t', s, rep, m + |rep|).0;
      PrefixOfPrefix(r, t', i, m + |rep|);
      ReplaceAllFromStep(t, s, rep, i, m, t');
      SplicedPrefix(t, m, |s|, rep, i);
      assert ReplaceAllFrom(t, s, rep, i).0 == r;
    }
  }

  /** A splice leaves everything before it alone. */
  lemma SplicedPrefix(t: string, m: nat, len: nat, rep: string, i: nat)
    requires i <= m && m + len <= |t|
    ensures Spliced(t, m, len, rep)[..i] == t[..i]
  {
    assert forall j :: 0 <= j < i ==> Spliced(t, m, len, rep)[j] == t[j];
  }

  /** With no occurrence the text is left as it is and the count is 0;
      otherwise the first match is replaced on the way. */
  lemma ReplaceAllFromNone(t: string, s: string, rep: string, i: nat)
    requires |s| > 0
    ensures FindFrom(t, s, i).None? <==> ReplaceAllFrom(t, s, rep, i).1 == 0
    ensures FindFrom(t, s, i).None? ==> ReplaceAllFrom(t, s, rep, i).0 == t
  {
  }

  /** Where a right-gravity mark at `mark` ends up after `len` characters at
      `m` are replaced by `repLen` ones. */
  function ShiftMark(mark: nat, m: nat, len: nat, repLen: nat): (r: nat)
    ensures mark < m ==> r == mark
    ensures m + len < mark ==> r == mark - len + repLen
    ensures m <= mark <= m + len ==> r == m + repLen
  {
    var d := if mark <= m then mark else if mark <= m + len then m else mark - len;
    if d < m then d else d + repLen
  }

  // ---------------------------------------------------------------------
  // gedit's search flags

  /** The bit of GEDIT_SEARCH_DONT_SET_FLAGS; the header defining it is not
      part of this model, only that it is a single non-zero bit matters. */
  const SearchDontSetFlags: bv32 := 1

  /** The bit of GEDIT_SEARCH_ENTIRE_WORD, likewise a single bit of its own. */
  const SearchEntireWord: bv32 := 4

  predicate IsDontSetFlags(flags: bv32)
  {
    flags & SearchDontSetFlags != 0
  }

  predicate IsEntireWord(flags: bv32)
  {
    flags & SearchEntireWord != 0
  }

  // ---------------------------------------------------------------------
  // The replace-all loop with entire-word matching

  /** The text and count of the replace-all loop from position `i`: with
      entire-word matching a match that is not a word is stepped over (the
      search resumes at its end), every other one is replaced and the search
      resumes after the inserted text. */
  function ReplaceWordsFrom(t: string, s: string, rep: string, i: nat,
                            entireWord: bool, isWord: (string, nat, nat) -> bool): (string, nat)
    requires |s| > 0
    decreases |t| - i + |s|
  {
    match FindFrom(t, s, i)
    case None => (t, 0)
    case Some(m) =>
      if entireWord && !isWord(t, m, m + |s|) then ReplaceWordsFrom(t, s, rep, m + |s|, entireWord, isWord)
      else
        var t' := Spliced(t, m, |s|, rep);
        var (r, n) := ReplaceWordsFrom(t', s, rep, m + |rep|, entireWord, isWord);
        (r, n + 1)
  }

  /** The loop heading for the result `final` (text and count) has reached
      text `t` at position `i` after `c` replacements. */
  predicate ReplaceWordsReached(final: (string, nat), s: string, rep: string, entireWord: bool,
                                isWord: (string, nat, nat) -> bool, t: string, i: nat, c: nat)
    requires |s| > 0
  {
    var rest := ReplaceWordsFrom(t, s, rep, i, entireWord, isWord);
    final.0 == rest.0 && final.1 == rest.1 + c
  }

  lemma ReplaceWordsReachedStep(final: (string, nat), s: string, rep: string, entireWord: bool,
                                isWord: (string, nat, nat) -> bool, t: string, i: nat, c: nat, m: nat, t': string)
    requires |s| > 0 && ReplaceWordsReached(final, s, rep, entireWord, isWord, t, i, c)
    requires FindFrom(t, s, i) == Some(m) && !(entireWord && !isWord(t, m, m + |s|))
    requires t' == Spliced(t, m, |s|, rep)
    ensures ReplaceWordsReached(final, s, rep, entireWord, isWord, t', m + |rep|, c + 1)
  {
  }

  /** A loop that finds no further match has reached the end result. */
  lemma ReplaceWordsDone(final: (string, nat), s: string, rep: string, entireWord: bool,
                         isWord: (string, nat, nat) -> bool, t: string, i: nat, c: nat)
    requires |s| > 0 && ReplaceWordsReached(final, s, rep, entireWord, isWord, t, i, c)
    requires FindFrom(t, s, i).None?
    ensures final == (t, c)
  {
  }

  lemma ReplaceWordsSkipStep(final: (string, nat), s: string, rep: string, entireWord: bool,
                             isWord: (string, nat, nat) -> bool, t: string, i: nat, c: nat, m: nat)
    requires |s| > 0 && ReplaceWordsReached(final, s, rep, entireWord, isWord, t, i, c)
    requires FindFrom(t, s, i) == Some(m) && entireWord && !isWord(t, m, m + |s|)
    ensures ReplaceWordsReached(final, s, rep, entireWord, isWord, t, m + |s|, c)
    ensures i < m + |s| <= |t|
  {
  }

  /** Without entire-word matching the loop is the plain replace-all
      loop. */
  lemma {:induction false} ReplaceWordsPlain(t: string, s: string, rep: string, i: nat, isWord: (string, nat, nat) -> bool)
    requires |s| > 0
    ensures ReplaceWordsFrom(t, s, rep, i, false, isWord) == ReplaceAllFrom(t, s, rep, i)
    decreases |t| - i + |s|
  {
    var f := FindFrom(t, s, i);
    if f.Some? {
      var m := f.value;
      var t' := Spliced(t, m, |s|, rep);
      ReplaceWordsPlain(t', s, rep, m + |rep|, isWord);
    }
  }

  /** When every match is a word, entire-word matching changes nothing. */
  lemma {:induction false} ReplaceWordsAllWords(t: string, s: string, rep: string, i: nat, isWord: (string, nat, nat) -> bool)
    requires |s| > 0 && forall u: string, a: nat, b: nat :: isWord(u, a, b)
    ensures ReplaceWordsFrom(t, s, rep, i, true, isWord) == ReplaceAllFrom(t, s, rep, i)
    decreases |t| - i + |s|
  {
    var f := FindFrom(t, s, i);
    if f.Some? {
      var m := f.value;
      var t' := Spliced(t, m, |s|, rep);
      ReplaceWordsAllWords(t', s, rep, m + |rep|, isWord);
    }
  }

  /** Skipping matches never replaces more than the plain loop finds
      matches that are words: with no word at all nothing is replaced. */
  lemma {:induction false} ReplaceWordsNoWords(t: string, s: string, rep: string, i: nat, isWord: (string, nat, nat) -> bool)
    requires |s| > 0 && forall u: string, a: nat, b: nat :: !isWord(u, a, b)
    ensures ReplaceWordsFrom(t, s, rep, i, true, isWord) == (t, 0)
    decreases |t| - i + |s|
  {
    var f := FindFrom(t, s, i);
    if f.Some? {
      ReplaceWordsNoWords(t, s, rep, f.value + |s|, isWord);
    }
  }
}
