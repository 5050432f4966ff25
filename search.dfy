/** The line helpers and the plain-text search of gedit/gedit-search.c,
    over the text of the active view as a sequence of characters (one
    GtkText position per character). */
module GeditSearch {
  import opened Common

  // ---------------------------------------------------------------------
  // Lines

  /** Lines 112-133: the number of newlines in the whole text, and the
      number of newlines at positions 0 to `pos` inclusive (0 when `pos` is
      not a position of the text). */
  method PosToLine(text: string, pos: int) returns (currentLine: int, numlines: int)
    ensures numlines == Count(text, '\n')
    ensures currentLine == if 0 <= pos < |text| then Count(text[..pos + 1], '\n') else 0
  {
    var lines := 0;
    currentLine := 0;
    var i := 0;
    while i < |text|
      invariant 0 <= i <= |text|
      invariant lines == Count(text[..i], '\n')
      invariant currentLine == if 0 <= pos < i then Count(text[..pos + 1], '\n') else 0
    {
      assert text[..i + 1] == text[..i] + [text[i]];
      CountAppend(text[..i], [text[i]], '\n');
      if text[i] == '\n' {
        lines := lines + 1;
      }
      if i == pos {
        currentLine := lines;
      }
      i := i + 1;
    }
    assert text[..|text|] == text;
    numlines := lines;
  }

  /** The line number that `get_line_count` and `line_to_pos` give the
      position `i` (1-based): one more than the newlines before it. */
  function LineAt(text: string, i: nat): (n: nat)
    requires i <= |text|
    ensures n >= 1
  {
    1 + Count(text[..i], '\n')
  }

  /** Lines 160-179: 0 for an empty text, otherwise one more than the
      newlines among its first `length - 2` characters (the last two
      characters are never looked at). */
  method GetLineCount(text: string) returns (lines: int)
    ensures text == [] ==> lines == 0
    ensures text != [] ==> lines == LineAt(text, Max(|text| - 2, 0))
  {
    if |text| == 0 {
      return 0;
    }
    lines := 1;
    var i := 1;
    while i < |text| - 1
      invariant 1 <= i <= Max(|text| - 1, 1)
      invariant lines == LineAt(text, i - 1)
    {
      assert text[..i] == text[..i - 1] + [text[i - 1]];
      CountAppend(text[..i - 1], [text[i - 1]], '\n');
      if text[i - 1] == '\n' {
        lines := lines + 1;
      }
      i := i + 1;
    }
  }

  /** The last position among 1 .. `length - 2` whose line is `line`, or 0. */
  function LastPosOfLine(text: string, line: int, hi: nat): (r: nat)
    requires hi <= |text|
    ensures r <= hi
    ensures r > 0 ==> LineAt(text, r) == line
    ensures forall k :: r < k <= hi && k >= 1 ==> LineAt(text, k) != line
    decreases hi
  {
    if hi == 0 then 0
    else if LineAt(text, hi) == line then hi
    else LastPosOfLine(text, line, hi - 1)
  }

  /** Lines 135-158. `numlines` is left as it was for an empty text. */
  method LineToPos(text: string, line: int, numlinesIn: int) returns (current: int, numlines: int)
    ensures text == [] ==> current == 0 && numlines == numlinesIn
    ensures text != [] ==> numlines == LineAt(text, Max(|text| - 2, 0))
    ensures text != [] ==> current == LastPosOfLine(text, line, Max(|text| - 2, 0))
  {
    if |text| == 0 {
      return 0, numlinesIn;
    }
    var lines := 1;
    current := 0;
    var i := 1;
    while i < |text| - 1
      invariant 1 <= i <= Max(|text| - 1, 1)
      invariant lines == LineAt(text, i - 1)
      invariant current == LastPosOfLine(text, line, i - 1)
    {
      assert text[..i] == text[..i - 1] + [text[i - 1]];
      CountAppend(text[..i - 1], [text[i - 1]], '\n');
      if text[i - 1] == '\n' {
        lines := lines + 1;
      }
      if lines == line {
        current := i;
      }
      i := i + 1;
    }
    numlines := lines;
  }

  /** A position `line_to_pos` returns lies just after `line - 1` newlines,
      which `pos_to_line` reports for the position before it. */
  lemma LineToPosAgreesWithPosToLine(text: string, line: int)
    requires |text| >= 3
    requires LastPosOfLine(text, line, |text| - 2) > 0
    ensures var p := LastPosOfLine(text, line, |text| - 2);
      Count(text[..(p - 1) + 1], '\n') == line - 1
  {
  }

  // ---------------------------------------------------------------------
  // Searching

  /** The two option bits the search dialog sets (lines 946, 950). */
  datatype SearchOptions = SearchOptions(nocase: bool, backwards: bool)

  /** `g_strcasecmp` folds ASCII letters. */
  function AsciiLower(c: char): char
  {
    if 'A' <= c <= 'Z' then (c as int + 32) as char else c
  }

  predicate SameText(a: string, b: string, nocase: bool)
  {
    |a| == |b| && forall k :: 0 <= k < |a| ==> (if nocase then AsciiLower(a[k]) == AsciiLower(b[k]) else a[k] == b[k])
  }

  /** `gtk_editable_get_chars(text, a, b)`: the positions are clamped to
      the text. */
  function GetChars(text: string, a: nat, b: int): (r: string)
    ensures b >= a && b <= |text| ==> r == text[a..b]
  {
    var lo := Min(a, |text|);
    var hi := Max(lo, Min(b, |text|));
    text[lo..hi]
  }

  /** Lines 977-992: the text at `pos` is `str`, compared over exactly as
      many characters as `str` has. */
  predicate MatchAt(text: string, str: string, pos: nat, nocase: bool)
  {
    SameText(GetChars(text, pos, pos + |str|), str, nocase)
  }

  lemma MatchAtMeans(text: string, str: string, pos: nat, nocase: bool)
    requires pos + |str| <= |text|
    ensures MatchAt(text, str, pos, nocase) <==> SameText(text[pos..pos + |str|], str, nocase)
  {
  }

  /** A non-empty string cannot match where it would run past the end. */
  lemma NoMatchPastEnd(text: string, str: string, pos: nat, nocase: bool)
    requires pos + |str| > |text| && |str| > 0
    ensures !MatchAt(text, str, pos, nocase)
  {
  }

  /** The first match at or after `i` up to `last`, or -1. */
  function FirstMatch(text: string, str: string, i: int, last: int, nocase: bool): (r: int)
    requires i >= 0
    ensures r == -1 || (i <= r <= last && MatchAt(text, str, r, nocase))
    ensures forall k :: i <= k <= last && (r == -1 || k < r) ==> !MatchAt(text, str, k, nocase)
    decreases last - i + 1
  {
    if i > last then -1
    else if MatchAt(text, str, i, nocase) then i
    else FirstMatch(text, str, i + 1, last, nocase)
  }

  /** The last match at or before `i` down to 0, or -1. */
  function LastMatch(text: string, str: string, i: int, nocase: bool): (r: int)
    ensures r == -1 || (0 <= r <= i && MatchAt(text, str, r, nocase))
    ensures forall k :: 0 <= k <= i && (r == -1 || k > r) ==> !MatchAt(text, str, k, nocase)
    decreases i + 1
  {
    if i < 0 then -1
    else if MatchAt(text, str, i, nocase) then i
    else LastMatch(text, str, i - 1, nocase)
  }

  /** What `gedit_search_search` returns. */
  function SearchResult(text: string, str: string, pos: nat, opts: SearchOptions): int
  {
    if |text| < |str| then -1
    else if opts.backwards then LastMatch(text, str, pos - |str|, opts.nocase)
    else FirstMatch(text, str, pos, |text| - |str|, opts.nocase)
  }

  /** Lines 204-233 (the search start comes from the dialog and is never
      negative). */
  method SearchSearch(text: string, str: string, pos: nat, opts: SearchOptions) returns (r: int)
    ensures r == SearchResult(text, str, pos, opts)
  {
    if |text| < |str| {
      return -1;
    }
    if opts.backwards {
      var i := pos - |str|;
      while i >= 0
        invariant i <= pos - |str|
        invariant LastMatch(text, str, pos - |str|, opts.nocase) == LastMatch(text, str, i, opts.nocase)
        decreases i + 1
      {
        if MatchAt(text, str, i, opts.nocase) {
          return i;
        }
        i := i - 1;
      }
    } else {
      var i := pos;
      while i <= |text| - |str|
        invariant i >= pos
        invariant FirstMatch(text, str, pos, |text| - |str|, opts.nocase) == FirstMatch(text, str, i, |text| - |str|, opts.nocase)
        decreases |text| - |str| - i + 1
      {
        if MatchAt(text, str, i, opts.nocase) {
          return i;
        }
        i := i + 1;
      }
    }
    return -1;
  }

  /** A forward search finds the leftmost match at or after the start and a
      backward one the rightmost match that ends at or before it; -1 means
      there is none. */
  lemma SearchResultMeans(text: string, str: string, pos: nat, opts: SearchOptions)
    requires |str| <= |text|
    ensures var r := SearchResult(text, str, pos, opts);
      && (!opts.backwards ==> (r == -1 <==> forall k :: pos <= k <= |text| - |str| ==> !MatchAt(text, str, k, opts.nocase)))
      && (!opts.backwards && r != -1 ==> pos <= r <= |text| - |str| && MatchAt(text, str, r, opts.nocase))
      && (opts.backwards ==> (r == -1 <==> forall k :: 0 <= k <= pos - |str| ==> !MatchAt(text, str, k, opts.nocase)))
      && (opts.backwards && r != -1 ==> r + |str| <= pos && MatchAt(text, str, r, opts.nocase))
  {
  }

  // ---------------------------------------------------------------------
  // find_in_file_search

  /** The index `get_start_index_of_line` reports for position `pos`: that
      of the last newline before it, or 0 when there is none. */
  function LineStart(text: string, pos: nat): (r: nat)
    requires pos <= |text|
    ensures r <= pos
    ensures r > 0 ==> r < pos && text[r] == '\n'
    ensures forall k :: r < k < pos ==> text[k] != '\n'
    ensures r == 0 ==> forall k :: 0 < k < pos ==> text[k] != '\n'
  {
    if pos == 0 then 0
    else if text[pos - 1] == '\n' then pos - 1
    else LineStart(text, pos - 1)
  }

  /** Lines 367-384. */
  method GetStartIndexOfLine(text: string, pos0: nat) returns (pos: nat)
    requires pos0 <= |text|
    ensures pos == LineStart(text, pos0)
  {
    pos := pos0;
    while pos > 0
      invariant pos <= pos0
      invariant LineStart(text, pos0) == LineStart(text, pos)
    {
      var c := text[pos - 1];
      pos := pos - 1;
      if c == '\n' {
        return;
      }
    }
  }

  /** One entry of the result list: the line counter and the line's start
      index as `get_start_index_of_line` gives it. */
  datatype Hit = Hit(line: int, index: int)

  /** The character `gtk_editable_get_chars(text, i, i + 1)` yields is a
      newline. */
  predicate NewlineAt(text: string, i: nat)
  {
    i < |text| && text[i] == '\n'
  }

  /** The entries for the matches at positions `i` to `last`, with the line
      counter at `line` before `i`. */
  function HitsFrom(text: string, str: string, i: nat, last: int, line: int): seq<Hit>
    requires last <= |text|
    decreases last - i + 1
  {
    if i > last then []
    else
      var line' := if NewlineAt(text, i) then line + 1 else line;
      (if MatchAt(text, str, i, false) then [Hit(line', LineStart(text, i))] else []) + HitsFrom(text, str, i + 1, last, line')
  }

  lemma HitsFromUnfold(text: string, str: string, i: nat, last: int, line: int)
    requires last <= |text| && i <= last
    ensures var line' := if NewlineAt(text, i) then line + 1 else line;
      HitsFrom(text, str, i, last, line)
      == (if MatchAt(text, str, i, false) then [Hit(line', LineStart(text, i))] else []) + HitsFrom(text, str, i + 1, last, line')
  {
  }

  /** Lines 425-468: the entries are returned rather than inserted into the
      result list, with the document name and the line text left out. */
  method FindInFileSearch(text: string, str: string) returns (counter: int, hits: seq<Hit>)
    ensures text == [] || |text| < |str| ==> counter == 0 && hits == []
    ensures text != [] && |str| <= |text| ==> hits == HitsFrom(text, str, 0, |text| - |str|, 0)
    ensures counter == |hits|
  {
    counter := 0;
    hits := [];
    if |text| == 0 || |text| < |str| {
      return;
    }
    var line := 0;
    var i := 0;
    ghost var last := |text| - |str|;
    while i <= |text| - |str|
      invariant 0 <= i <= last + 1
      invariant counter == |hits|
      invariant hits + HitsFrom(text, str, i, last, line) == HitsFrom(text, str, 0, last, 0)
    {
      ghost var before := hits;
      if NewlineAt(text, i) {
        line := line + 1;
      }
      HitsFromUnfold(text, str, i, last, if NewlineAt(text, i) then line - 1 else line);
      ghost var rest := HitsFrom(text, str, i + 1, last, line);
      if MatchAt(text, str, i, false) {
        var index := GetStartIndexOfLine(text, i);
        hits := hits + [Hit(line, index)];
        counter := counter + 1;
        ConcatAssoc(before, [Hit(line, index)], rest);
      } else {
        assert [] + rest == rest;
      }
      i := i + 1;
    }
  }

  /** The line counter `find_in_file_search` has reached at position `p`:
      the newlines up to and including it. */
  function LineOf(text: string, p: nat): nat
  {
    Count(text[..Min(p + 1, |text|)], '\n')
  }

  /** The positions from `i` to `last` where `str` matches case-sensitively,
      in increasing order, overlapping ones included. */
  function MatchPositions(text: string, str: string, i: nat, last: int): (r: seq<nat>)
    ensures forall j :: 0 <= j < |r| ==> i <= r[j] <= last && MatchAt(text, str, r[j], false)
    decreases last - i + 1
  {
    if i > last then []
    else if MatchAt(text, str, i, false) then [i] + MatchPositions(text, str, i + 1, last)
    else MatchPositions(text, str, i + 1, last)
  }

  /** MatchPositions misses no match in the range. */
  lemma {:induction false} MatchPositionsComplete(text: string, str: string, i: nat, last: int)
    ensures forall k :: i <= k <= last && MatchAt(text, str, k, false) ==> k in MatchPositions(text, str, i, last)
    decreases last - i + 1
  {
    if i <= last {
      MatchPositionsComplete(text, str, i + 1, last);
      var rest := MatchPositions(text, str, i + 1, last);
      if MatchAt(text, str, i, false) {
        assert MatchPositions(text, str, i, last) == [i] + rest;
      } else {
        assert MatchPositions(text, str, i, last) == rest;
      }
    }
  }

  /** Positions listed in strictly increasing order. */
  predicate Increasing(ps: seq<nat>)
  {
    forall a, b :: 0 <= a < b < |ps| ==> ps[a] < ps[b]
  }

  /** MatchPositions lists the positions in increasing order. */
  lemma {:induction false} MatchPositionsIncreasing(text: string, str: string, i: nat, last: int)
    ensures Increasing(MatchPositions(text, str, i, last))
    decreases last - i + 1
  {
    if i <= last {
      MatchPositionsIncreasing(text, str, i + 1, last);
      var rest := MatchPositions(text, str, i + 1, last);
      if MatchAt(text, str, i, false) {
        assert MatchPositions(text, str, i, last) == [i] + rest;
        PrependIncreasing(i, rest);
      }
    }
  }

  /** Putting a smaller position in front keeps a list increasing. */
  lemma PrependIncreasing(x: nat, t: seq<nat>)
    requires forall j :: 0 <= j < |t| ==> x < t[j]
    requires Increasing(t)
    ensures Increasing([x] + t)
  {
  }

  /** The entries for the positions `ps`. */
  function HitsOf(text: string, ps: seq<nat>): seq<Hit>
    requires forall j :: 0 <= j < |ps| ==> ps[j] <= |text|
  {
    if ps == [] then [] else [Hit(LineOf(text, ps[0]), LineStart(text, ps[0]))] + HitsOf(text, ps[1..])
  }

  /** The line counter after looking at position `i`. */
  lemma LineStep(text: string, i: nat, line: int)
    requires line == Count(text[..Min(i, |text|)], '\n')
    ensures (if NewlineAt(text, i) then line + 1 else line) == LineOf(text, i)
  {
    if i < |text| {
      assert text[..i + 1] == text[..i] + [text[i]];
      CountAppend(text[..i], [text[i]], '\n');
    } else {
      assert text[..Min(i + 1, |text|)] == text[..Min(i, |text|)];
    }
  }

  lemma HitsOfCons(text: string, p: nat, ps: seq<nat>)
    requires p <= |text| && forall j :: 0 <= j < |ps| ==> ps[j] <= |text|
    ensures HitsOf(text, [p] + ps) == [Hit(LineOf(text, p), LineStart(text, p))] + HitsOf(text, ps)
  {
    assert ([p] + ps)[1..] == ps;
  }

  /** The result list has one entry per match position, in order, with that
      position's line counter and line start. */
  lemma {:induction false} HitsFromMeans(text: string, str: string, i: nat, last: int, line: int)
    requires last <= |text| && i <= last + 1
    requires line == Count(text[..Min(i, |text|)], '\n')
    ensures HitsFrom(text, str, i, last, line) == HitsOf(text, MatchPositions(text, str, i, last))
    decreases last - i + 1
  {
    if i <= last {
      LineStep(text, i, line);
      var line' := LineOf(text, i);
      HitsFromUnfold(text, str, i, last, line);
      assert line' == Count(text[..Min(i + 1, |text|)], '\n');
      HitsFromMeans(text, str, i + 1, last, line');
      var ps := MatchPositions(text, str, i + 1, last);
      if MatchAt(text, str, i, false) {
        HitsOfCons(text, i, ps);
      } else {
        assert HitsFrom(text, str, i, last, line) == [] + HitsFrom(text, str, i + 1, last, line');
      }
    }
  }

  // ---------------------------------------------------------------------
  // Replacing

  /** The editable text of the active view. */
  class Editable {
    var text: string

    constructor(t: string)
      ensures text == t
    {
      text := t;
    }

    /** `gtk_editable_delete_text`, positions clamped to the text. */
    method DeleteText(a: nat, b: nat)
      modifies this
      ensures text == old(text[..Min(a, |text|)] + text[Max(Min(a, |text|), Min(b, |text|))..])
    {
      var lo := Min(a, |text|);
      var hi := Max(lo, Min(b, |text|));
      text := text[..lo] + text[hi..];
    }

    /** `gtk_editable_insert_text`, the position clamped to the text. */
    method InsertText(s: string, pos: nat)
      modifies this
      ensures text == old(text[..Min(pos, |text|)] + s + text[Min(pos, |text|)..])
    {
      var p := Min(pos, |text|);
      text := text[..p] + s + text[p..];
    }

    /** Lines 241-251: no checks of its own. */
    method SearchReplace(pos: nat, len: nat, replace: string)
      modifies this
      ensures text == Replaced(old(text), pos, len, replace)
    {
      DeleteText(pos, pos + len);
      InsertText(replace, pos);
    }
  }

  /** The text after deleting `len` characters at `pos` and inserting
      `replace` there. */
  function Replaced(t: string, pos: nat, len: nat, replace: string): (r: string)
  {
    var lo := Min(pos, |t|);
    var hi := Max(lo, Min(pos + len, |t|));
    t[..lo] + replace + t[hi..]
  }

  /** Replacing a stretch inside the text keeps what is before and after it
      and puts the replacement in its place. */
  lemma ReplacedMeans(t: string, pos: nat, len: nat, replace: string)
    requires pos + len <= |t|
    ensures var r := Replaced(t, pos, len, replace);
      && |r| == |t| - len + |replace|
      && r[..pos] == t[..pos]
      && r[pos..pos + |replace|] == replace
      && r[pos + |replace|..] == t[pos + len..]
  {
    var r := Replaced(t, pos, len, replace);
    assert r == t[..pos] + replace + t[pos + len..];
    assert r[pos + |replace|..] == t[pos + len..];
  }

  /** Bit values of SEARCH_NOCASE and SEARCH_BACKWARDS: their header is not
      part of this model; they are two distinct non-zero bits. */
  const SearchNocaseBit: bv32 := 1
  const SearchBackwardsBit: bv32 := 2

  function OptionBits(opts: SearchOptions): bv32
  {
    (if opts.nocase then SearchNocaseBit else 0) | (if opts.backwards then SearchBackwardsBit else 0)
  }

  /** Lines 907 and 916 as written: `!(options | SEARCH_BACKWARDS)`. */
  predicate AdvanceAsWritten(opts: SearchOptions)
  {
    (OptionBits(opts) | SearchBackwardsBit) == 0
  }

  /** The evident intention: `!(options & SEARCH_BACKWARDS)`. */
  predicate AdvanceIntended(opts: SearchOptions)
  {
    (OptionBits(opts) & SearchBackwardsBit) == 0
  }

  lemma AdvanceGuards(opts: SearchOptions)
    ensures !AdvanceAsWritten(opts)
    ensures AdvanceIntended(opts) <==> !opts.backwards
  {
  }

  /** One round of the replace loop without confirmation (lines 899-920):
      None when nothing more is found, else the new text and the next
      search start, advanced past the replacement iff `advance`. */
  function ReplaceRound(text: string, str: string, replace: string, pos: nat, opts: SearchOptions, advance: bool): Option<(string, nat)>
  {
    var found := SearchResult(text, str, pos, opts);
    if found < 0 then None
    else Some((Replaced(text, found, |str|, replace), if advance then found + |replace| else found))
  }

  /** As written, "Replace all" never ends when the replacement contains
      the searched text at its start: the search restarts where the last
      replacement was made and finds that replacement again. */
  lemma ReplaceAllAsWrittenLoops(k: nat)
    ensures var opts := SearchOptions(false, false);
      ReplaceRound("a" + Bs(k), "a", "ab", 0, opts, AdvanceAsWritten(opts)) == Some(("a" + Bs(k + 1), 0))
  {
    var t := "a" + Bs(k);
    var opts := SearchOptions(false, false);
    assert SearchResult(t, "a", 0, opts) == 0 by {
      assert GetChars(t, 0, 1) == t[0..1] == "a";
      assert MatchAt(t, "a", 0, false);
    }
    assert !AdvanceAsWritten(opts);
    ReplaceLeadingA(k);
  }

  /** Replacing the leading "a" of "abb…b" by "ab" adds one "b". */
  lemma ReplaceLeadingA(k: nat)
    ensures Replaced("a" + Bs(k), 0, 1, "ab") == "a" + Bs(k + 1)
  {
    var t := "a" + Bs(k);
    assert t[..0] == [] && t[1..] == Bs(k);
    assert Replaced(t, 0, 1, "ab") == "ab" + Bs(k);
    assert Bs(k + 1) == "b" + Bs(k);
    assert "ab" + Bs(k) == "a" + ("b" + Bs(k));
  }

  function Bs(k: nat): (r: string)
    ensures |r| == k
  {
    if k == 0 then "" else "b" + Bs(k - 1)
  }

  /** An empty search text matches wherever the search starts, so each
      round of the loop, with either guard, replaces the empty string there
      and leaves the next round a start still inside the text: the loop
      never ends. */
  lemma EmptySearchRoundRepeats(text: string, replace: string, pos: nat, opts: SearchOptions, advance: bool)
    requires pos <= |text|
    ensures var r := ReplaceRound(text, [], replace, pos, opts, advance);
      && r.Some? && r.value.0 == text[..pos] + replace + text[pos..]
      && r.value.1 <= |r.value.0|
  {
    assert MatchAt(text, [], pos, opts.nocase);
    assert Replaced(text, pos, 0, replace) == text[..pos] + replace + text[pos..];
  }

  /** "Replace all" with the intended guard (lines 895-921 with `&` for
      `|`): each round restarts after the replacement going forwards, and
      from the match itself going backwards. */
  method ReplaceAll(e: Editable, str: string, replace: string, pos0: nat, opts: SearchOptions) returns (count: nat)
    modifies e
    ensures str == [] ==> e.text == old(e.text) && count == 0
    ensures str != [] ==> e.text == ReplaceAllFrom(old(e.text), str, replace, pos0, opts)
  {
    count := 0;
    if str == [] {
      return;
    }
    AdvanceGuards(opts);
    var pos: nat := pos0;
    while true
      invariant ReplaceAllFrom(e.text, str, replace, pos, opts) == ReplaceAllFrom(old(e.text), str, replace, pos0, opts)
      decreases Measure(e.text, pos, opts)
    {
      var found := SearchSearch(e.text, str, pos, opts);
      if found == -1 {
        break;
      }
      ghost var t := e.text;
      ReplaceAllFromUnfold(t, str, replace, pos, opts);
      e.SearchReplace(found, |str|, replace);
      count := count + 1;
      if AdvanceIntended(opts) {
        pos := found + |replace|;
      } else {
        pos := found;
      }
      assert pos == NextStart(found, replace, opts);
    }
  }

  /** What each round of "Replace all" leaves to search: the text after the
      start going forwards, the start going backwards. */
  function Measure(text: string, pos: nat, opts: SearchOptions): nat
  {
    if opts.backwards then pos else if pos <= |text| then |text| - pos else 0
  }

  /** Where the next round of "Replace all" starts after a replacement at
      `found`. */
  function NextStart(found: nat, replace: string, opts: SearchOptions): nat
  {
    if opts.backwards then found else found + |replace|
  }

  /** With the intended guard every round leaves less to search, so the
      loop ends. */
  lemma ReplaceRoundDecreases(text: string, str: string, replace: string, pos: nat, opts: SearchOptions)
    requires |str| > 0
    requires SearchResult(text, str, pos, opts) >= 0
    ensures var found := SearchResult(text, str, pos, opts);
      Measure(Replaced(text, found, |str|, replace), NextStart(found, replace, opts), opts) < Measure(text, pos, opts)
  {
    var found := SearchResult(text, str, pos, opts);
    SearchResultMeans(text, str, pos, opts);
    ReplacedMeans(text, found, |str|, replace);
  }

  /** The text "Replace all" leaves, starting the search at `pos`. */
  function ReplaceAllFrom(text: string, str: string, replace: string, pos: nat, opts: SearchOptions): string
    requires |str| > 0
    decreases Measure(text, pos, opts)
  {
    var found := SearchResult(text, str, pos, opts);
    if found < 0 then text
    else
      ReplaceRoundDecreases(text, str, replace, pos, opts);
      ReplaceAllFrom(Replaced(text, found, |str|, replace), str, replace, NextStart(found, replace, opts), opts)
  }

  lemma ReplaceAllFromUnfold(text: string, str: string, replace: string, pos: nat, opts: SearchOptions)
    requires |str| > 0 && SearchResult(text, str, pos, opts) >= 0
    ensures var found := SearchResult(text, str, pos, opts);
      && Measure(Replaced(text, found, |str|, replace), NextStart(found, replace, opts), opts) < Measure(text, pos, opts)
      && ReplaceAllFrom(text, str, replace, pos, opts)
         == ReplaceAllFrom(Replaced(text, found, |str|, replace), str, replace, NextStart(found, replace, opts), opts)
  {
    ReplaceRoundDecreases(text, str, replace, pos, opts);
  }

  /** A forward "Replace all" never changes the text before its start. */
  lemma {:induction false} ReplaceAllKeepsPrefix(text: string, str: string, replace: string, pos: nat, opts: SearchOptions)
    requires |str| > 0 && !opts.backwards && pos <= |text|
    ensures var r := ReplaceAllFrom(text, str, replace, pos, opts);
      pos <= |r| && r[..pos] == text[..pos]
    decreases Measure(text, pos, opts)
  {
    var found := SearchResult(text, str, pos, opts);
    if found >= 0 {
      assert pos <= found && found + |str| <= |text|;
      ReplacedMeans(text, found, |str|, replace);
      ReplaceAllFromUnfold(text, str, replace, pos, opts);
      var t' := Replaced(text, found, |str|, replace);
      var next := NextStart(found, replace, opts);
      ReplaceAllKeepsPrefix(t', str, replace, next, opts);
      var r := ReplaceAllFrom(t', str, replace, next, opts);
      assert ReplaceAllFrom(text, str, replace, pos, opts) == r;
      PrefixOfPrefix(r, t', pos, next);
      PrefixOfPrefix(t', text, pos, found);
    }
  }

}
