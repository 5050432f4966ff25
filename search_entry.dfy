/** The logic behind the interactive search entry that gedit/gedit-view-frame.c
    and gedit/gedit-text-view.c each carry a copy of: the list of recent
    search texts offered for completion, the completion match, the input
    filter of the goto-line entry and the way its text is read as a line and
    a column. The two files hold the same code; it is defined here once and
    the two widgets use it. */
module GeditSearchEntry {
  import opened Common
  import opened GtkText
  import GeditUtils
  import GeditTextBuffer

  /** What the entry is for: a text search or jumping to a line. */
  datatype SearchMode = Search | GotoLine

  /** MIN_SEARCH_COMPLETION_KEY_LEN (gedit-view-frame.c line 36). */
  const MinSearchCompletionKeyLen: nat := 3

  /** The entry colour set_entry_background picks. */
  datatype EntryBackground = NormalBackground | NotFoundBackground

  // ---------------------------------------------------------------------
  // Digits, C's atoi and the "%d" format

  /** A digit as C's isdigit and atoi read it. */
  predicate IsDigit(c: char)
  {
    '0' <= c <= '9'
  }

  /** The zero of each other run of ten Unicode decimal digits (general
      category Nd) in Unicode 6.0: Arabic-Indic, Extended Arabic-Indic, NKo,
      the Indic scripts, Thai, Lao, Tibetan, Myanmar, Khmer, Mongolian,
      Limbu, New Tai Lue, Tai Tham, Balinese, Sundanese, Lepcha, Ol Chiki,
      Vai, Saurashtra, Kayah Li, Javanese, Cham, Meetei Mayek, fullwidth,
      Osmanya, Brahmi and the five runs of mathematical digits. */
  const OtherDigitZeros: seq<int> :=
    [0x660, 0x6F0, 0x7C0, 0x966, 0x9E6, 0xA66, 0xAE6, 0xB66, 0xBE6, 0xC66,
     0xCE6, 0xD66, 0xE50, 0xED0, 0xF20, 0x1040, 0x1090, 0x17E0, 0x1810,
     0x1946, 0x19D0, 0x1A80, 0x1A90, 0x1B50, 0x1BB0, 0x1C40, 0x1C50, 0xA620,
     0xA8D0, 0xA900, 0xA9D0, 0xAA50, 0xABF0, 0xFF10, 0x104A0, 0x11066,
     0x1D7CE, 0x1D7D8, 0x1D7E2, 0x1D7EC, 0x1D7F6]

  /** GLib's g_unichar_isdigit: a decimal digit of any script, either an
      ASCII digit or one of the runs above, all of which lie past U+065F. */
  predicate IsUnicodeDigit(c: char)
  {
    IsDigit(c) ||
    (c as int >= 0x660 &&
     exists i | 0 <= i < |OtherDigitZeros| :: OtherDigitZeros[i] <= c as int < OtherDigitZeros[i] + 10)
  }

  /** An ASCII digit is a Unicode digit, below U+0660 the two agree, and
      no sign or colon is a digit. */
  lemma UnicodeDigitFacts(c: char)
    ensures IsDigit(c) ==> IsUnicodeDigit(c)
    ensures c as int < 0x660 ==> (IsUnicodeDigit(c) <==> IsDigit(c))
    ensures !IsUnicodeDigit(':') && !IsUnicodeDigit('-') && !IsUnicodeDigit('+')
  {
  }


  /** The characters C's isspace accepts in the C locale. */
  predicate IsSpace(c: char)
  {
    c == ' ' || c == '\t' || c == '\n' || c == '\r' || c as int == 11 || c as int == 12
  }

  function SpacePrefix(s: string): (n: nat)
    ensures n <= |s|
  {
    if s != [] && IsSpace(s[0]) then 1 + SpacePrefix(s[1..]) else 0
  }

  /** Length of the run of digits `s` starts with. */
  function DigitPrefix(s: string): (n: nat)
    ensures n <= |s|
    ensures forall i :: 0 <= i < n ==> IsDigit(s[i])
    ensures n < |s| ==> !IsDigit(s[n])
  {
    if s != [] && IsDigit(s[0]) then 1 + DigitPrefix(s[1..]) else 0
  }

  predicate AllDigits(d: string)
  {
    forall i :: 0 <= i < |d| ==> IsDigit(d[i])
  }

  function DigitValue(c: char): nat
    requires IsDigit(c)
  {
    c as int - '0' as int
  }

  /** The number a string of decimal digits denotes. */
  function DigitsValue(d: string): nat
    requires AllDigits(d)
  {
    if d == [] then 0 else 10 * DigitsValue(d[..|d| - 1]) + DigitValue(d[|d| - 1])
  }

  /** The number the digits at the front of `s` denote (0 for none). */
  function LeadingNumber(s: string): nat
  {
    DigitsValue(s[..DigitPrefix(s)])
  }

  /** C's atoi: leading white space, an optional sign, then as many digits as
      follow; 0 when there are none. */
  function Atoi(s: string): int
  {
    var t := s[SpacePrefix(s)..];
    if t != [] && t[0] == '-' then 0 - LeadingNumber(t[1..])
    else if t != [] && t[0] == '+' then LeadingNumber(t[1..])
    else LeadingNumber(t)
  }

  function DigitChar(d: nat): (c: char)
    requires d < 10
    ensures IsDigit(c) && DigitValue(c) == d
  {
    ('0' as int + d) as char
  }

  /** What printf's "%d" writes for a non-negative number. */
  function DecimalString(n: nat): (r: string)
    ensures r != [] && AllDigits(r)
  {
    if n < 10 then [DigitChar(n)] else DecimalString(n / 10) + [DigitChar(n % 10)]
  }

  lemma {:induction false} DecimalStringValue(n: nat)
    ensures DigitsValue(DecimalString(n)) == n
  {
    if n >= 10 {
      var r := DecimalString(n);
      assert r[..|r| - 1] == DecimalString(n / 10);
      DecimalStringValue(n / 10);
    }
  }

  lemma {:induction false} DigitPrefixOfDigits(d: string, rest: string)
    requires AllDigits(d)
    requires rest == [] || !IsDigit(rest[0])
    ensures DigitPrefix(d + rest) == |d|
  {
    if d != [] {
      assert (d + rest)[1..] == d[1..] + rest;
      DigitPrefixOfDigits(d[1..], rest);
    } else {
      assert d + rest == rest;
    }
  }

  lemma LeadingNumberDecimal(n: nat, rest: string)
    requires rest == [] || !IsDigit(rest[0])
    ensures LeadingNumber(DecimalString(n) + rest) == n
  {
    var d := DecimalString(n);
    DigitPrefixOfDigits(d, rest);
    assert (d + rest)[..|d|] == d;
    DecimalStringValue(n);
  }

  /** atoi of a text that starts with a digit is its leading number. */
  lemma AtoiOfDigits(s: string)
    requires s != [] && IsDigit(s[0])
    ensures Atoi(s) == LeadingNumber(s)
  {
    assert SpacePrefix(s) == 0;
    assert s[0..] == s;
  }

  /** atoi of a sign followed by a text is that text's leading number,
      negated after `-`. */
  lemma AtoiOfSign(sign: char, s: string)
    requires sign == '-' || sign == '+'
    ensures Atoi([sign] + s) == if sign == '-' then 0 - LeadingNumber(s) else LeadingNumber(s)
  {
    var m := [sign] + s;
    assert SpacePrefix(m) == 0;
    assert m[0..] == m && m[1..] == s;
  }

  /** atoi reads back what "%d" writes, with or without a sign, up to the
      first character that is not a digit. */
  lemma AtoiDecimal(n: nat, rest: string)
    requires rest == [] || !IsDigit(rest[0])
    ensures Atoi(DecimalString(n) + rest) == n
    ensures Atoi("-" + DecimalString(n) + rest) == 0 - n
    ensures Atoi("+" + DecimalString(n) + rest) == n
  {
    var d := DecimalString(n);
    var s := d + rest;
    LeadingNumberDecimal(n, rest);
    assert Atoi(s) == n by {
      assert s[0] == d[0];
      AtoiOfDigits(s);
    }
    assert Atoi("-" + d + rest) == 0 - n by {
      assert "-" + d + rest == ['-'] + s;
      AtoiOfSign('-', s);
    }
    assert Atoi("+" + d + rest) == n by {
      assert "+" + d + rest == ['+'] + s;
      AtoiOfSign('+', s);
    }
  }

  // ---------------------------------------------------------------------
  // The goto-line entry: reading a line and a column

  /** The line and the column (line offset) a goto-line entry asks for. */
  datatype GotoTarget = GotoTarget(line: int, column: int)

  /** The first piece of `g_strsplit (s, ":", -1)`. */
  function BeforeColon(s: string): (r: string)
    ensures IsPrefix(r, s) && ':' !in r
    ensures ':' !in s ==> r == s
  {
    if ':' in s then s[..IndexOf(s, ':')] else s
  }

  /** The second piece of `g_strsplit (s, ":", -1)`, when there is one. */
  function AfterColon(s: string): (r: Option<string>)
    ensures r.Some? <==> ':' in s
    ensures r.Some? ==> ':' !in r.value
  {
    if ':' in s then Some(BeforeColon(s[IndexOf(s, ':') + 1..])) else None
  }

  /** The offset a relative entry (`-k` or `+k`) gives: none for a bare sign,
      and never negative. */
  function RelativeOffset(text: string): (k: nat)
  {
    if |text| > 1 then Max(Atoi(text[1..]), 0) as nat else 0
  }

  /** The goto-line part of search_init (gedit-view-frame.c lines 947-1001):
      `-k` goes k lines up from `cur`, stopping at the first line; `+k` goes
      k lines down; a bare number is a 1-based line; the piece after the
      first `:` is the column. */
  function GotoLineTarget(entry: string, cur: nat): (r: GotoTarget)
    ensures r.line >= 0
  {
    var text := BeforeColon(entry);
    var line :=
      if text != [] && text[0] == '-' then Max(cur - RelativeOffset(text), 0)
      else if entry != [] && entry[0] == '+' then cur + RelativeOffset(text)
      else Max(Atoi(text) - 1, 0);
    var column := match AfterColon(entry) case Some(c) => Atoi(c) case None => 0;
    GotoTarget(line, column)
  }

  lemma DecimalHasNoColon(n: nat)
    ensures ':' !in DecimalString(n)
  {
  }

  lemma ColonSplit(a: string, b: string)
    requires ':' !in a
    ensures BeforeColon(a + ":" + b) == a
    ensures AfterColon(a + ":" + b) == Some(BeforeColon(b))
  {
    var e := a + ":" + b;
    assert e[|a|] == ':';
    assert e[..|a|] == a;
    FirstIndex(e, ':', |a|);
    assert e[|a| + 1..] == b;
  }

  /** `n:c` asks for the 1-based line n (the first line for 0) and column c. */
  lemma GotoLineWithColumn(n: nat, c: nat, cur: nat)
    ensures GotoLineTarget(DecimalString(n) + ":" + DecimalString(c), cur)
            == GotoTarget(Max(n - 1, 0), c)
  {
    var dn, dc := DecimalString(n), DecimalString(c);
    DecimalHasNoColon(n);
    DecimalHasNoColon(c);
    ColonSplit(dn, dc);
    AtoiDecimal(n, []);
    AtoiDecimal(c, []);
    assert dn + [] == dn && dc + [] == dc;
  }

  /** `-k` goes k lines up from the current line, but not above the first. */
  lemma GotoLineBackward(k: nat, cur: nat)
    ensures GotoLineTarget("-" + DecimalString(k), cur) == GotoTarget(Max(cur - k, 0), 0)
  {
    var e := "-" + DecimalString(k);
    DecimalHasNoColon(k);
    assert ':' !in e by { assert e[1..] == DecimalString(k); }
    AtoiDecimal(k, []);
    assert e[1..] == DecimalString(k) + [];
  }

  /** `+k` goes k lines down from the current line. */
  lemma GotoLineForward(k: nat, cur: nat)
    ensures GotoLineTarget("+" + DecimalString(k), cur) == GotoTarget(cur + k, 0)
  {
    var e := "+" + DecimalString(k);
    DecimalHasNoColon(k);
    assert ':' !in e by { assert e[1..] == DecimalString(k); }
    AtoiDecimal(k, []);
    assert e[1..] == DecimalString(k) + [];
  }

  /** A bare sign stays on the current line. */
  lemma GotoLineBareSign(cur: nat)
    ensures GotoLineTarget("-", cur) == GotoTarget(cur, 0)
    ensures GotoLineTarget("+", cur) == GotoTarget(cur, 0)
  {
  }

  /** The text init_search_entry puts in a goto-line entry (the current line
      plus one) leads back to the current line. */
  lemma GotoLinePrefillRoundTrip(line: nat, cur: nat)
    ensures GotoLineTarget(DecimalString(line + 1), cur) == GotoTarget(line, 0)
  {
    var d := DecimalString(line + 1);
    DecimalHasNoColon(line + 1);
    AtoiDecimal(line + 1, []);
    assert d + [] == d;
  }

  /** The jump search_init makes (gedit-view-frame.c lines 1003-1005):
      `gedit_document_goto_line` and then `gedit_document_goto_line_offset`
      as the text buffer implements them, each refused without moving the
      cursor by the document interface for a number below -1
      (gedit-document-interface.c lines 620-638). The jump succeeds when
      both calls do. */
  function GotoJump(t: string, target: GotoTarget, cursor: nat): (r: (bool, nat))
    requires cursor <= |t|
    ensures r.1 <= |t|
  {
    if target.line < -1 then (false, cursor)
    else
      var moved := GeditTextBuffer.GotoLineResult(t, target.line);
      if target.column < -1 then (false, moved.1)
      else
        var offset := GeditTextBuffer.GotoLineOffsetResult(t, target.line, target.column);
        (moved.0 && offset.0, offset.1)
  }

  /** Where the jump lands: a line below -1 is refused without moving;
      otherwise the jump succeeds exactly when the line exists and the
      column lies within its characters, and then the cursor is at that
      column; an existing line with a column outside it gives its start,
      and a line past the last lands on the last line. */
  lemma GotoJumpLands(t: string, target: GotoTarget, cursor: nat)
    requires cursor <= |t|
    ensures var r := GotoJump(t, target, cursor);
      && (target.line < -1 ==> r == (false, cursor))
      && (target.line >= 0 && target.column >= -1 ==>
            && (r.0 <==> target.line < LineCount(t) && 0 <= target.column <= CharsInLine(t, target.line))
            && (r.0 ==> r.1 == LineStartOf(t, target.line) + target.column)
            && (target.line < LineCount(t) && !r.0 ==> r.1 == LineStartOf(t, target.line))
            && (target.line >= LineCount(t) ==> LineAt(t, r.1) == LineCount(t) - 1))
  {
    GeditTextBuffer.GotoLineLands(t, target.line);
    GeditTextBuffer.GotoLineOffsetLands(t, target.line, target.column);
    if target.line >= -1 && target.column >= -1 {
      OnLastLine(t, GeditTextBuffer.GotoLineOffsetResult(t, target.line, target.column).1);
    }
  }

  lemma OnLastLine(t: string, p: nat)
    ensures LineStartOf(t, LineCount(t) - 1) <= p <= |t| ==> LineAt(t, p) == LineCount(t) - 1
  {
    if LineStartOf(t, LineCount(t) - 1) <= p <= |t| {
      LineAtMonotone(t, LineStartOf(t, LineCount(t) - 1), p);
      LineAtMonotone(t, p, |t|);
    }
  }

  /** The goto-line entry pre-filled for a position jumps to the start of
      that position's line. */
  lemma PrefillJumpsToLineStart(t: string, pos: nat, cursor: nat)
    requires pos <= |t| && cursor <= |t|
    ensures GotoJump(t, GotoLineTarget(DecimalString(LineAt(t, pos) + 1), LineAt(t, pos)), cursor)
            == (true, LineStartAt(t, pos))
  {
    var line := LineAt(t, pos);
    GotoLinePrefillRoundTrip(line, line);
    var target := GotoLineTarget(DecimalString(line + 1), line);
    assert target == GotoTarget(line, 0);
    LineAtMonotone(t, pos, |t|);
    assert line < LineCount(t);
    GotoJumpLands(t, target, cursor);
  }

  // ---------------------------------------------------------------------
  // The goto-line entry: the input filter of search_entry_insert_text

  /** How many characters at the front of an insertion are exempt from the
      digits-only rule: a sign typed at the very start, or a colon typed
      after the start while the entry has none yet. */
  function ExemptPrefix(existing: string, text: string, position: int): (n: nat)
    ensures n <= |text|
  {
    if text == [] then 0
    else if (text[0] == '-' || text[0] == '+') && position == 0 then 1
    else if text[0] == ':' && position != 0 && ':' !in existing then 1
    else 0
  }

  /** The insertion goes through: everything after the exempt prefix is a
      digit. */
  predicate InsertAccepted(existing: string, text: string, position: int)
  {
    forall i :: ExemptPrefix(existing, text, position) <= i < |text| ==> IsUnicodeDigit(text[i])
  }

  /** The filter of the goto-line entry (gedit-view-frame.c lines 733-783):
      the walk over the inserted characters stops at the first non-digit
      past the exempt prefix. */
  method GotoLineFilter(existing: string, text: string, position: int) returns (accepted: bool)
    ensures accepted == InsertAccepted(existing, text, position)
  {
    if text == [] {
      return true;
    }
    var p := ExemptPrefix(existing, text, position);
    while p < |text|
      invariant ExemptPrefix(existing, text, position) <= p <= |text|
      invariant forall i :: ExemptPrefix(existing, text, position) <= i < p ==> IsUnicodeDigit(text[i])
    {
      if !IsUnicodeDigit(text[p]) {
        return false;
      }
      p := p + 1;
    }
    return true;
  }

  /** What the filter lets through, told without the exempt prefix: only
      digits, except that the first character may be a sign at position 0 or
      a colon at a later position when the entry has no colon yet. */
  lemma InsertAcceptedIff(existing: string, text: string, position: int)
    ensures InsertAccepted(existing, text, position) <==>
            (text == [] ||
             ((forall i :: 1 <= i < |text| ==> IsUnicodeDigit(text[i])) &&
              (IsUnicodeDigit(text[0])
               || ((text[0] == '-' || text[0] == '+') && position == 0)
               || (text[0] == ':' && position != 0 && ':' !in existing))))
  {
  }

  /** An accepted insertion never gives the entry a second colon. */
  lemma InsertKeepsOneColon(existing: string, text: string, position: nat)
    requires position <= |existing|
    requires Count(existing, ':') <= 1
    requires InsertAccepted(existing, text, position)
    ensures Count(existing[..position] + text + existing[position..], ':') <= 1
  {
    var e := existing;
    assert e == e[..position] + e[position..];
    CountAppend(e[..position], e[position..], ':');
    CountAppend(e[..position], text, ':');
    CountAppend(e[..position] + text, e[position..], ':');
    if text != [] {
      assert text == [text[0]] + text[1..];
      CountAppend([text[0]], text[1..], ':');
      assert ':' !in text[1..] by {
        forall i | 0 <= i < |text[1..]| ensures text[1..][i] != ':' {
          assert IsUnicodeDigit(text[i + 1]);
        }
      }
      if text[0] == ':' {
        assert ':' !in e;
      }
    }
  }

  /** What the colon test of search_entry_insert_text does with the copy
      of the entry it takes (gedit-view-frame.c lines 751-765,
      gedit-text-view.c lines 1269-1283): no copy is taken, the copy is
      freed, the copy is lost without being freed, or a pointer `offset`
      bytes inside the copy is handed to g_free. */
  datatype ProbeMemory = NoCopy | CopyFreed | CopyLost | FreedInside(offset: nat)

  /** The colon test as written: the copy's pointer is overwritten by
      g_utf8_strchr, so an entry without a colon loses the copy and an
      entry with one frees the place its colon sits. */
  function ColonProbeAsWritten(existing: string, text: string, position: int): ProbeMemory
  {
    if text == [] || text[0] != ':' || position == 0 then NoCopy
    else if ':' !in existing then CopyLost
    else
      var offset := Utf8Len(existing[..IndexOf(existing, ':')]);
      if offset == 0 then CopyFreed else FreedInside(offset)
  }

  /** The colon test as intended: a copy is taken for the same insertions
      as in the code, and the copy taken is the one freed. The decision it feeds,
      ExemptPrefix, is the same either way. */
  function ColonProbe(existing: string, text: string, position: int): (r: ProbeMemory)
    ensures r == NoCopy || r == CopyFreed
    ensures r == CopyFreed <==> ColonProbeAsWritten(existing, text, position) != NoCopy
  {
    if text != [] && text[0] == ':' && position != 0 then CopyFreed else NoCopy
  }

  /** Typing a second colon into `1:2` frees a pointer one byte into the
      copy of the entry; typing the first colon into `12` loses the copy. */
  lemma ColonProbeAsWrittenFreesInside()
    ensures ColonProbeAsWritten("1:2", ":", 3) == FreedInside(1)
    ensures ColonProbeAsWritten("12", ":", 2) == CopyLost
    ensures ColonProbe("1:2", ":", 3) == CopyFreed && ColonProbe("12", ":", 2) == CopyFreed
  {
    assert "1:2"[..IndexOf("1:2", ':')] == "1";
  }

  /** The filter lets in digits that atoi does not read: an entry holding
      only ARABIC-INDIC DIGIT THREE is accepted and asks for the first line. */
  lemma NonAsciiDigitGoesToFirstLine(cur: nat)
    ensures InsertAccepted([], "\U{0663}", 0)
    ensures GotoLineTarget("\U{0663}", cur) == GotoTarget(0, 0)
  {
    assert OtherDigitZeros[0] <= 0x663 < OtherDigitZeros[0] + 10;
    assert IsUnicodeDigit("\U{0663}"[0]);
    assert Atoi("\U{0663}") == 0 by {
      assert SpacePrefix("\U{0663}") == 0;
      assert DigitPrefix("\U{0663}") == 0;
    }
  }

  // ---------------------------------------------------------------------
  // Search mode: typed text is inserted escaped

  lemma {:induction false} EscapeLength(t: string)
    ensures |GeditUtils.Escape(t)| >= |t|
    ensures |GeditUtils.Escape(t)| == |t| ==> GeditUtils.Escape(t) == t
  {
    if t != [] {
      EscapeLength(t[1..]);
    }
  }

  /** The text the search entry finally holds for a typed string: the
      handler lets the insertion through when escaping keeps its length and
      otherwise stops it and inserts the escaped text, whose own nested
      insertion the static flag lets through unchanged
      (gedit-view-frame.c lines 784-818). */
  function SearchInsertion(text: string): (r: string)
    ensures r == GeditUtils.Escape(text)
  {
    var escaped := GeditUtils.Escape(text);
    EscapeLength(text);
    if |escaped| == |text| then text else escaped
  }

  // ---------------------------------------------------------------------
  // Filling the entry when the popup opens

  /** The selected text of a buffer, when its two marks differ. */
  function SelectedText(t: string, insert: nat, bound: nat): (r: Option<string>)
    requires insert <= |t| && bound <= |t|
    ensures r.Some? <==> insert != bound
    ensures r.Some? ==> |r.value| == Max(insert, bound) - Min(insert, bound)
  {
    if insert == bound then None
    else Some(t[Min(insert, bound)..Max(insert, bound)])
  }

  /** The text init_search_entry sets (gedit-view-frame.c lines 1201-1270):
      in goto-line mode the 1-based number of the line `start` is on; in
      search mode the selection when there is one of at most 160
      characters, and nothing otherwise. */
  function PrefillText(mode: SearchMode, t: string, start: nat, selection: Option<string>): (r: string)
    requires start <= |t|
    ensures mode == GotoLine ==> r != []
    ensures mode == Search ==>
              |r| <= MaxSelectionPrefill && (r != [] ==> selection == Some(r))
              && (selection.Some? && |selection.value| <= MaxSelectionPrefill ==> r == selection.value)
  {
    if mode == GotoLine then DecimalString(LineAt(t, start) + 1)
    else if selection.Some? && |selection.value| <= MaxSelectionPrefill then selection.value
    else []
  }

  /** The entry's text after `gtk_entry_set_text (entry, t)`: unchanged
      when it already reads `t`; otherwise it is emptied and `t` inserted at
      the start through search_entry_insert_text, which escapes it in
      search mode and lets it through or stops it in goto-line mode. */
  function SetTextResult(mode: SearchMode, before: string, t: string): string
  {
    if t == before then before
    else if mode == Search then SearchInsertion(t)
    else if InsertAccepted([], t, 0) then t else []
  }

  /** Whether that call ends with a "changed" signal: the entry did not
      read `t` already and something was deleted or inserted. */
  predicate SetTextChanges(mode: SearchMode, before: string, t: string)
  {
    t != before && (before != [] || SetTextResult(mode, before, t) != [])
  }

  // ---------------------------------------------------------------------
  // Completion

  predicate NoNul(s: string)
  {
    '\0' !in s
  }

  /** strncmp (a, b, n) == 0 for C strings: the first n characters agree,
      reading the terminating NUL past the end of either. */
  predicate StrnEqual(a: string, b: string, n: nat)
  {
    forall i :: 0 <= i < n ==> CharOrNul(a, i) == CharOrNul(b, i)
  }

  function CharOrNul(s: string, i: nat): char
  {
    if i < |s| then s[i] else '\0'
  }

  lemma CharOrNulPastEnd(a: string, b: string)
    ensures |b| < |a| ==> CharOrNul(b, |b|) == '\0' && CharOrNul(a, |b|) == a[|b|] && a[|b|] in a
  {
  }

  lemma StrnEqualPrefix(a: string, b: string)
    requires NoNul(a) && NoNul(b)
    ensures StrnEqual(a, b, |a|) <==> IsPrefix(a, b)
  {
    if StrnEqual(a, b, |a|) {
      if |b| < |a| {
        CharOrNulPastEnd(a, b);
        assert false;
      }
      assert b[..|a|] == a by {
        forall i | 0 <= i < |a| ensures b[i] == a[i] {
          assert CharOrNul(a, i) == CharOrNul(b, i);
        }
      }
    }
    if IsPrefix(a, b) {
      forall i | 0 <= i < |a| ensures CharOrNul(a, i) == CharOrNul(b, i) {
        assert b[..|a|][i] == b[i];
      }
    }
  }

  /** completion_func (gedit-view-frame.c lines 821-877): nothing is offered
      in goto-line mode, for an entry of at most three characters or for an
      empty row. A case-sensitive search offers the items the entry text is
      a prefix of; otherwise `key` (the entry text as GTK normalises and
      case-folds it) must be a prefix of `fold(item)`, standing for
      g_utf8_casefold (g_utf8_normalize (item)). */
  function CompletionMatches(mode: SearchMode, entryText: string, key: string,
                             item: Option<string>, caseSensitive: bool,
                             fold: string -> string): (r: bool)
    requires NoNul(entryText) && NoNul(key)
    requires item.Some? ==> NoNul(item.value) && NoNul(fold(item.value))
    ensures mode == GotoLine ==> !r
    ensures |entryText| <= MinSearchCompletionKeyLen ==> !r
    ensures item.None? ==> !r
    ensures mode == Search && |entryText| > MinSearchCompletionKeyLen && item.Some? ==>
              (r <==> if caseSensitive then IsPrefix(entryText, item.value)
                      else IsPrefix(key, fold(item.value)))
  {
    if mode == GotoLine then false
    else if |entryText| <= MinSearchCompletionKeyLen then false
    else if item.None? then false
    else if caseSensitive then
      StrnEqualPrefix(entryText, item.value);
      StrnEqual(entryText, item.value, |entryText|)
    else
      StrnEqualPrefix(key, fold(item.value));
      StrnEqual(key, fold(item.value), |key|)
  }

  // ---------------------------------------------------------------------
  // The searches run while typing

  /** The longest selection init_search_entry copies into the entry. */
  const MaxSelectionPrefill: nat := 160

  /** A match the document's search reports: where it starts and ends. */
  datatype Match = Match(start: nat, end: nat)

  /** Every match `search` reports lies inside a text of length `len`. */
  ghost predicate Searcher(search: nat -> Option<Match>, len: nat)
  {
    forall p :: search(p).Some? ==> search(p).value.start <= search(p).value.end <= len
  }

  /** The match run_search ends up with (gedit-view-frame.c lines 371-418): none for an empty
      entry; forward from the start mark while typing, forward from the end
      of the selection or backward from its start otherwise; with
      wrap-around a failed search is retried from the start (or, backwards,
      the end) of the buffer. */
  function SearchResult(entry: string, backward: bool, wrap: bool, typing: bool,
                        startMark: nat, cursor: nat, selectionBound: nat, len: nat,
                        searchForward: nat -> Option<Match>,
                        searchBackward: nat -> Option<Match>): Option<Match>
  {
    if entry == [] then None
    else
      var first :=
        if !backward then searchForward(if typing then startMark else Max(cursor, selectionBound) as nat)
        else searchBackward(Min(cursor, selectionBound) as nat);
      if first.None? && wrap then
        (if !backward then searchForward(0) else searchBackward(len))
      else first
  }

  /** Where search_init (gedit-view-frame.c lines 902-1022) leaves the
      cursor and the selection bound, and the colour it gives the entry. In
      search mode: the typing search from `start` selects the match, or puts
      both marks back at `start` when there is none. In goto-line mode an
      empty entry changes nothing; otherwise both marks go where the jump
      to the entry's line and column, relative to the line of `start`,
      lands. The entry shows not-found exactly when a non-empty entry finds
      nothing or asks for a jump that fails. */
  function SearchInitEffect(mode: SearchMode, entry: string, t: string, start: nat,
                            cursor: nat, bound: nat, background: EntryBackground, wrap: bool,
                            searchForward: nat -> Option<Match>,
                            searchBackward: nat -> Option<Match>): (r: (nat, nat, EntryBackground))
    requires start <= |t| && cursor <= |t| && bound <= |t|
    requires Searcher(searchForward, |t|) && Searcher(searchBackward, |t|)
    ensures r.0 <= |t| && r.1 <= |t|
  {
    if mode == Search then
      var m := SearchResult(entry, false, wrap, true, start, cursor, bound, |t|, searchForward, searchBackward);
      if m.Some? then (m.value.start, m.value.end, NormalBackground)
      else (start, start, if entry == [] then NormalBackground else NotFoundBackground)
    else if entry == [] then (cursor, bound, background)
    else
      var jump := GotoJump(t, GotoLineTarget(entry, LineAt(t, start)), cursor);
      (jump.1, jump.1, if jump.0 then NormalBackground else NotFoundBackground)
  }

  /** An emptied search entry puts both marks back at the start and shows
      normal; an emptied goto-line entry changes nothing; a goto-line entry
      collapses the selection at the place it jumps to. A non-empty entry
      shows not-found exactly when its search finds nothing or its jump
      fails. */
  lemma SearchInitEffectFacts(mode: SearchMode, entry: string, t: string, start: nat,
                              cursor: nat, bound: nat, background: EntryBackground, wrap: bool,
                              searchForward: nat -> Option<Match>,
                              searchBackward: nat -> Option<Match>)
    requires start <= |t| && cursor <= |t| && bound <= |t|
    requires Searcher(searchForward, |t|) && Searcher(searchBackward, |t|)
    ensures var r := SearchInitEffect(mode, entry, t, start, cursor, bound, background, wrap,
                                      searchForward, searchBackward);
      && (mode == Search && entry == [] ==> r == (start, start, NormalBackground))
      && (mode == GotoLine && entry == [] ==> r == (cursor, bound, background))
      && (mode == GotoLine && entry != [] ==> r.0 == r.1)
      && (entry != [] ==>
            (r.2 == NotFoundBackground <==>
               if mode == Search
               then SearchResult(entry, false, wrap, true, start, cursor, bound, |t|,
                                 searchForward, searchBackward).None?
               else !GotoJump(t, GotoLineTarget(entry, LineAt(t, start)), cursor).0))
  {
  }

  /** What a popup shows and where it leaves the buffer's marks: the
      entry's text, the cursor, the selection bound and the entry's colour. */
  datatype PopupState = PopupState(entry: string, cursor: nat, bound: nat, background: EntryBackground)

  /** The popup after `gtk_entry_set_text (entry, t)` on an entry reading
      `before`: the entry is set as SetTextResult says, and when that emits
      "changed" search_init runs on the new text. */
  function SetTextOutcome(mode: SearchMode, before: string, t: string, buf: string, start: nat,
                          cursor: nat, bound: nat, background: EntryBackground, wrap: bool,
                          searchForward: nat -> Option<Match>,
                          searchBackward: nat -> Option<Match>): (r: PopupState)
    requires start <= |buf| && cursor <= |buf| && bound <= |buf|
    requires Searcher(searchForward, |buf|) && Searcher(searchBackward, |buf|)
    ensures r.cursor <= |buf| && r.bound <= |buf|
  {
    var entry := SetTextResult(mode, before, t);
    if SetTextChanges(mode, before, t) then
      var e := SearchInitEffect(mode, entry, buf, start, cursor, bound, background, wrap,
                                searchForward, searchBackward);
      PopupState(entry, e.0, e.1, e.2)
    else PopupState(entry, cursor, bound, background)
  }

  /** Whether that call hands the document a new search text: search_init
      ran in search mode and the document's text or flags differ from the
      entry's. */
  predicate SetsSearchText(mode: SearchMode, before: string, t: string,
                           docSearchText: Option<string>, docSearchFlags: bv32, searchFlags: bv32)
  {
    && SetTextChanges(mode, before, t) && mode == Search
    && (docSearchText != Some(SetTextResult(mode, before, t)) || docSearchFlags != searchFlags)
  }

  /** Filling the new, empty entry of a popup: the entry holds the fill,
      escaped in search mode, and an empty fill changes nothing and sets no
      search text. */
  lemma FreshEntryOutcome(mode: SearchMode, t: string, start: nat, selection: Option<string>,
                          cursor: nat, bound: nat, background: EntryBackground, wrap: bool,
                          searchForward: nat -> Option<Match>,
                          searchBackward: nat -> Option<Match>,
                          docSearchText: Option<string>, docSearchFlags: bv32, searchFlags: bv32)
    requires start <= |t| && cursor <= |t| && bound <= |t|
    requires Searcher(searchForward, |t|) && Searcher(searchBackward, |t|)
    ensures var fill := PrefillText(mode, t, start, selection);
            var r := SetTextOutcome(mode, [], fill, t, start, cursor, bound, background, wrap,
                                    searchForward, searchBackward);
      && r.entry == (if mode == Search then GeditUtils.Escape(fill) else fill)
      && (fill == [] ==> r == PopupState([], cursor, bound, background)
                         && !SetsSearchText(mode, [], fill, docSearchText, docSearchFlags, searchFlags))
  {
    var fill := PrefillText(mode, t, start, selection);
    EscapeLength(fill);
    if mode == GotoLine {
      GotoFillAccepted(t, start);
    }
  }

  /** The goto-line fill, a decimal number, passes the entry's filter. */
  lemma GotoFillAccepted(t: string, start: nat)
    requires start <= |t|
    ensures var fill := PrefillText(GotoLine, t, start, None);
      SetTextResult(GotoLine, [], fill) == fill != []
  {
    var fill := PrefillText(GotoLine, t, start, None);
    assert InsertAccepted([], fill, 0) by {
      forall i | ExemptPrefix([], fill, 0) <= i < |fill| ensures IsUnicodeDigit(fill[i]) {
        assert IsDigit(fill[i]);
      }
    }
  }

  /** A goto-line entry filled for the cursor's line, when it did not
      read that number already, puts both marks at the start of the
      cursor's line and shows normal. */
  lemma GotoEntryLands(t: string, cursor: nat, selection: Option<string>, before: string, bound: nat,
                       background: EntryBackground, wrap: bool,
                       searchForward: nat -> Option<Match>,
                       searchBackward: nat -> Option<Match>)
    requires cursor <= |t| && bound <= |t|
    requires Searcher(searchForward, |t|) && Searcher(searchBackward, |t|)
    requires PrefillText(GotoLine, t, cursor, selection) != before
    ensures var r := SetTextOutcome(GotoLine, before, PrefillText(GotoLine, t, cursor, selection), t, cursor,
                                    cursor, bound, background, wrap, searchForward, searchBackward);
      r.cursor == r.bound == LineStartAt(t, cursor) && r.background == NormalBackground
  {
    assert PrefillText(GotoLine, t, cursor, selection) == PrefillText(GotoLine, t, cursor, None);
    GotoFillAccepted(t, cursor);
    PrefillJumpsToLineStart(t, cursor, cursor);
  }

  // ---------------------------------------------------------------------
  // old_search_text as the source handles it

  /** What the pointer old_search_text holds: nothing, a live copy of a
      text, or memory that was already freed. */
  datatype HeldText = NullText | LiveText(text: string) | FreedText

  /** init_search_entry as written in the view frame (gedit-view-frame.c
      lines 1238-1246): the old pointer is freed first and only replaced
      when the document has a search text. */
  function OldSearchTextAsWritten(held: HeldText, docText: Option<string>): HeldText
  {
    match docText
    case Some(t) => LiveText(t)
    case None => if held.LiveText? then FreedText else held
  }

  /** A second search popup of a view frame over a document whose search
      text was cleared (an emptied entry clears it)
      leaves old_search_text pointing at freed memory, which the Escape key
      then hands to set_search_text and the next popup or the widget's
      finalizer frees again. */
  lemma InitSearchEntryAsWrittenDangles(s: string)
    ensures OldSearchTextAsWritten(LiveText(s), None) == FreedText
    ensures OldSearchTextAsWritten(OldSearchTextAsWritten(LiveText(s), None), None) == FreedText
  {
  }

  // ---------------------------------------------------------------------
  // The list of recent search texts

  /** The list after add_search_completion_entry (gedit-view-frame.c lines
      219-280): NULL and texts of fewer than three characters once unescaped
      leave it alone; otherwise the unescaped text ends up first, moved
      there when it is already listed. */
  function MruAdd(entries: seq<string>, str: Option<string>): seq<string>
  {
    match str
    case None => entries
    case Some(s) =>
      var t := GeditUtils.Unescape(s);
      if |t| < MinSearchCompletionKeyLen then entries else [t] + RemoveFirst(entries, t)
  }

  lemma {:induction false} RemoveFirstKeepsOthers(s: seq<string>, x: string, y: string)
    requires y != x
    ensures y in RemoveFirst(s, x) <==> y in s
  {
    if s != [] && s[0] != x {
      RemoveFirstKeepsOthers(s[1..], x, y);
    }
  }

  /** The list never holds a text twice, and what was added is first. */
  lemma MruAddNoDuplicates(entries: seq<string>, str: Option<string>)
    requires NoDuplicates(entries)
    ensures NoDuplicates(MruAdd(entries, str))
  {
    if str.Some? {
      var t := GeditUtils.Unescape(str.value);
      if |t| >= MinSearchCompletionKeyLen {
        RemoveFirstNoDup(entries, t);
      }
    }
  }

  /** Adding a text of three characters or more puts it first and adds no
      other text; every text that was listed stays listed. */
  lemma MruAddContents(entries: seq<string>, s: string)
    requires |GeditUtils.Unescape(s)| >= MinSearchCompletionKeyLen
    ensures var r := MruAdd(entries, Some(s)); var t := GeditUtils.Unescape(s);
            r[0] == t &&
            (forall y :: y in r <==> y == t || y in entries) &&
            |r| == if t in entries then |entries| else |entries| + 1
  {
    var t := GeditUtils.Unescape(s);
    forall y | y != t ensures y in RemoveFirst(entries, t) <==> y in entries {
      RemoveFirstKeepsOthers(entries, t, y);
    }
  }

  /** Adding the same text twice is the same as adding it once. */
  lemma MruAddIdempotent(entries: seq<string>, str: Option<string>)
    ensures MruAdd(MruAdd(entries, str), str) == MruAdd(entries, str)
  {
  }

  /** The search-completion list store the entries of one file share. */
  class CompletionModel {
    var entries: seq<string>

    constructor()
      ensures entries == []
    {
      entries := [];
    }

    /** add_search_completion_entry: the walk over the rows stops at the
        one holding the text and moves it to the front; when no row holds it
        a row is prepended. */
    method AddSearchCompletionEntry(str: Option<string>)
      modifies this
      ensures entries == MruAdd(old(entries), str)
    {
      if str.None? {
        return;
      }
      var text := GeditUtils.Unescape(str.value);
      if |text| < MinSearchCompletionKeyLen {
        return;
      }
      var i := 0;
      while i < |entries|
        invariant 0 <= i <= |entries|
        invariant entries == old(entries)
        invariant text !in entries[..i]
      {
        if entries[i] == text {
          assert text in entries;
          FirstIndex(entries, text, i);
          RemoveFirstAt(entries, text);
          entries := [text] + (entries[..i] + entries[i + 1..]);
          return;
        }
        assert entries[..i + 1] == entries[..i] + [entries[i]];
        i := i + 1;
      }
      assert entries[..i] == entries;
      entries := [text] + entries;
    }
  }

  lemma FirstIndex<T>(s: seq<T>, x: T, i: nat)
    requires i < |s| && s[i] == x && x !in s[..i]
    ensures x in s && IndexOf(s, x) == i
  {
  }
}
