/** The string helpers of gedit/gedit-utils.c. Text is a sequence of
    characters: the source walks UTF-8 text with `g_utf8_next_char`, one
    step per character, and none of the characters it looks at has a
    multi-byte encoding. `make_valid_utf8` and `is_valid_uri` look at bytes
    and are modelled on byte sequences. */
module GeditUtils {
  import opened Common

  // ---------------------------------------------------------------------
  // gedit_utils_escape_search_text / gedit_utils_unescape_search_text

  /** How one character is written in the search entry (lines 326-339). */
  function EscapeChar(c: char): string
  {
    if c == '\n' then "\\n"
    else if c == '\r' then "\\r"
    else if c == '\t' then "\\t"
    else [c]
  }

  function Escape(s: string): string
  {
    if s == [] then [] else EscapeChar(s[0]) + Escape(s[1..])
  }

  lemma {:induction false} EscapeAppend(a: string, b: string)
    ensures Escape(a + b) == Escape(a) + Escape(b)
  {
    if a == [] {
      assert a + b == b;
    } else {
      assert (a + b)[1..] == a[1..] + b;
      EscapeAppend(a[1..], b);
    }
  }

  /** Lines 297-342: NULL stays NULL, otherwise each character is escaped. */
  method EscapeSearchText(text: Option<string>) returns (r: Option<string>)
    ensures text.None? ==> r.None?
    ensures text.Some? ==> r == Some(Escape(text.value))
  {
    if text.None? {
      return None;
    }
    var t := text.value;
    var str := "";
    var i := 0;
    while i < |t|
      invariant 0 <= i <= |t|
      invariant str == Escape(t[..i])
    {
      var c := t[i];
      var piece: string;
      if c == '\n' {
        piece := "\\n";
      } else if c == '\r' {
        piece := "\\r";
      } else if c == '\t' {
        piece := "\\t";
      } else {
        piece := [c];
      }
      assert t[..i + 1] == t[..i] + [c];
      EscapeAppend(t[..i], [c]);
      str := str + piece;
      i := i + 1;
    }
    assert t[..|t|] == t;
    return Some(str);
  }

  /** The escaped text holds no newline, carriage return or tab, and text
      without them is its own escape. */
  lemma {:induction false} EscapeRemovesControls(s: string)
    ensures forall i :: 0 <= i < |Escape(s)| ==> Escape(s)[i] != '\n' && Escape(s)[i] != '\r' && Escape(s)[i] != '\t'
    ensures (forall i :: 0 <= i < |s| ==> s[i] != '\n' && s[i] != '\r' && s[i] != '\t') ==> Escape(s) == s
  {
    if s != [] {
      EscapeRemovesControls(s[1..]);
      assert Escape(s) == EscapeChar(s[0]) + Escape(s[1..]);
    }
  }

  /** Decoding the search entry (lines 344-416), `afterBackslash` telling
      whether the previous character was a backslash that has not been
      consumed: `\n`, `\r`, `\t` and `\\` are decoded, any other escaped
      character keeps its backslash, and a lone backslash at the very end is
      kept; a backslash elsewhere waits for the next character. */
  function UnescapeFrom(s: string, afterBackslash: bool): string
  {
    if s == [] then []
    else UnescapePiece(s[0], afterBackslash, |s| == 1) + UnescapeFrom(s[1..], !afterBackslash && s[0] == '\\')
  }

  /** What one character contributes, `last` telling whether it ends the
      text. */
  function UnescapePiece(c: char, afterBackslash: bool, last: bool): string
  {
    if afterBackslash then
      if c == 'n' then "\n"
      else if c == 'r' then "\r"
      else if c == 't' then "\t"
      else if c == '\\' then "\\"
      else ['\\', c]
    else if c != '\\' then [c]
    else if last then "\\"
    else ""
  }

  function Unescape(s: string): string
  {
    UnescapeFrom(s, false)
  }

  /** A non-empty text never unescapes to the empty one. */
  lemma {:induction false} UnescapeNonEmpty(s: string)
    requires s != []
    ensures Unescape(s) != []
  {
    UnescapeFromNonEmpty(s, false);
  }

  lemma {:induction false} UnescapeFromNonEmpty(s: string, afterBackslash: bool)
    requires s != []
    ensures UnescapeFrom(s, afterBackslash) != []
    decreases |s|
  {
    if UnescapePiece(s[0], afterBackslash, |s| == 1) == [] {
      UnescapeFromNonEmpty(s[1..], !afterBackslash && s[0] == '\\');
    }
  }

  /** Lines 344-416: the loop keeps a pointer `prev` to the previous
      character, dropped after an escaped backslash. */
  method UnescapeSearchText(text: Option<string>) returns (r: Option<string>)
    ensures text.None? ==> r.None?
    ensures text.Some? ==> r == Some(Unescape(text.value))
  {
    if text.None? {
      return None;
    }
    var t := text.value;
    var str := "";
    var prev := -1;
    var cur := 0;
    ghost var flag := false;
    while cur < |t|
      invariant 0 <= cur <= |t| && -1 <= prev < cur
      invariant flag == (prev >= 0 && t[prev] == '\\')
      invariant str + UnescapeFrom(t[cur..], flag) == Unescape(t)
    {
      var c := t[cur];
      var piece := "";
      var dropPrev := false;
      if prev >= 0 && t[prev] == '\\' {
        if c == 'n' {
          piece := "\n";
        } else if c == 'r' {
          piece := "\r";
        } else if c == 't' {
          piece := "\t";
        } else if c == '\\' {
          piece := "\\";
          dropPrev := true;
        } else {
          piece := "\\" + [c];
        }
      } else if c != '\\' {
        piece := [c];
      } else if cur + 1 == |t| {
        piece := "\\";
      }
      UnescapeStep(t, cur, flag, str, piece);
      str := str + piece;
      flag := !flag && c == '\\';
      if !dropPrev {
        prev := cur;
      } else {
        prev := -1;
      }
      cur := cur + 1;
    }
    UnescapeStep(t, cur, flag, str, "");
    return Some(str);
  }

  /** One round of the unescaping loop, and its end. */
  lemma UnescapeStep(t: string, cur: nat, flag: bool, done: string, piece: string)
    requires cur <= |t| && done + UnescapeFrom(t[cur..], flag) == Unescape(t)
    requires cur < |t| ==> piece == UnescapePiece(t[cur], flag, cur + 1 == |t|)
    ensures cur < |t| ==> (done + piece) + UnescapeFrom(t[cur + 1..], !flag && t[cur] == '\\') == Unescape(t)
    ensures cur == |t| ==> done == Unescape(t)
  {
    if cur < |t| {
      assert t[cur..][1..] == t[cur + 1..];
    } else {
      assert done + [] == done;
    }
  }

  /** Unescaping what was escaped gives the text back, for text without
      backslashes (a backslash typed in the text would start an escape). */
  lemma {:induction false} UnescapeEscape(s: string)
    requires forall i :: 0 <= i < |s| ==> s[i] != '\\'
    ensures Unescape(Escape(s)) == s
  {
    if s != [] {
      UnescapeEscape(s[1..]);
      var e := Escape(s[1..]);
      var c := s[0];
      assert Escape(s) == EscapeChar(c) + e;
      if c == '\n' || c == '\r' || c == '\t' {
        var x := EscapeChar(c) + e;
        var y := [x[1]] + e;
        assert x[0] == '\\' && |x| != 1 && x[1..] == y;
        assert UnescapeFrom(x, false) == UnescapeFrom(y, true);
        assert y[0] == x[1] && y[1..] == e;
        assert UnescapeFrom(y, true) == [c] + UnescapeFrom(e, false);
      } else {
        assert ([c] + e)[0] == c && ([c] + e)[1..] == e;
      }
    }
  }

  // ---------------------------------------------------------------------
  // gedit_utils_escape_underscores / gedit_utils_escape_slashes

  /** Every underscore doubled, so that a menu label shows it literally. */
  function DoubleUnderscores(s: string): string
  {
    if s == [] then [] else (if s[0] == '_' then "__" else [s[0]]) + DoubleUnderscores(s[1..])
  }

  lemma {:induction false} DoubleUnderscoresAppend(a: string, b: string)
    ensures DoubleUnderscores(a + b) == DoubleUnderscores(a) + DoubleUnderscores(b)
  {
    if a == [] {
      assert a + b == b;
    } else {
      assert (a + b)[1..] == a[1..] + b;
      DoubleUnderscoresAppend(a[1..], b);
    }
  }

  /** How a mnemonic label is read: `__` stands for one underscore. */
  function ReadMnemonicLabel(s: string): string
  {
    if s == [] then []
    else if |s| >= 2 && s[0] == '_' && s[1] == '_' then "_" + ReadMnemonicLabel(s[2..])
    else [s[0]] + ReadMnemonicLabel(s[1..])
  }

  /** Lines 501-538 over the text a `(text, length)` pair denotes. */
  method EscapeUnderscores(text: string, length: int) returns (r: string)
    requires length < 0 || CharsForBytes(text, length).Some?
    ensures r == DoubleUnderscores(Span(text, length))
  {
    var t := Span(text, length);
    var str := "";
    var i := 0;
    while i < |t|
      invariant 0 <= i <= |t|
      invariant str == DoubleUnderscores(t[..i])
    {
      assert t[..i + 1] == t[..i] + [t[i]];
      DoubleUnderscoresAppend(t[..i], [t[i]]);
      if t[i] == '_' {
        str := str + "__";
      } else {
        str := str + [t[i]];
      }
      i := i + 1;
    }
    assert t[..|t|] == t;
    return str;
  }

  /** The label shows the original text, and grows by one character per
      underscore. */
  lemma {:induction false} DoubleUnderscoresReads(s: string)
    ensures ReadMnemonicLabel(DoubleUnderscores(s)) == s
    ensures |DoubleUnderscores(s)| == |s| + Count(s, '_')
  {
    if s != [] {
      DoubleUnderscoresReads(s[1..]);
      var d := DoubleUnderscores(s[1..]);
      if s[0] == '_' {
        assert ("__" + d)[2..] == d;
      } else {
        assert ([s[0]] + d)[1..] == d;
      }
    }
  }

  /** Lines 543-575: each `/` becomes `-`, everything else is copied. */
  method EscapeSlashes(text: string, length: int) returns (r: string)
    requires length < 0 || CharsForBytes(text, length).Some?
    ensures |r| == |Span(text, length)|
    ensures forall i :: 0 <= i < |r| ==> r[i] == if Span(text, length)[i] == '/' then '-' else Span(text, length)[i]
    ensures forall i :: 0 <= i < |r| ==> r[i] != '/'
  {
    var t := Span(text, length);
    var str := "";
    var i := 0;
    while i < |t|
      invariant 0 <= i <= |t| && |str| == i
      invariant forall k :: 0 <= k < i ==> str[k] == if t[k] == '/' then '-' else t[k]
    {
      if t[i] == '/' {
        str := str + "-";
      } else {
        str := str + [t[i]];
      }
      i := i + 1;
    }
    return str;
  }

  // ---------------------------------------------------------------------
  // gedit_utils_str_middle_truncate

  const Ellipsis: char := '…'

  /** Lines 579-623: a string longer than `truncateLength` characters (when
      that is at least 3) is cut to exactly `truncateLength` characters: its
      first `(truncateLength - 1) / 2` characters, an ellipsis, and as many of
      its last characters as fit. */
  function StrMiddleTruncate(s: string, truncateLength: nat): (r: string)
    ensures truncateLength < 3 || |s| <= truncateLength ==> r == s
    ensures truncateLength >= 3 && |s| > truncateLength ==>
      var left := (truncateLength - 1) / 2;
      && |r| == truncateLength
      && r[..left] == s[..left]
      && r[left] == Ellipsis
      && r[left + 1..] == s[|s| - (truncateLength - left - 1)..]
  {
    if truncateLength < 3 then s
    else if |s| <= truncateLength then s
    else
      var numLeft := (truncateLength - 1) / 2;
      var rightOffset := |s| - truncateLength + numLeft + 1;
      s[..numLeft] + [Ellipsis] + s[rightOffset..]
  }

  /** The truncated string is never longer than the limit, unless the limit
      is below 3, and it keeps the first and the last character. */
  lemma StrMiddleTruncateBounds(s: string, truncateLength: nat)
    requires truncateLength >= 3
    ensures |StrMiddleTruncate(s, truncateLength)| <= truncateLength
    ensures s != [] ==> StrMiddleTruncate(s, truncateLength)[0] == s[0]
    ensures s != [] ==> var r := StrMiddleTruncate(s, truncateLength); r[|r| - 1] == s[|s| - 1]
  {
    var r := StrMiddleTruncate(s, truncateLength);
    if |s| > truncateLength {
      var left := (truncateLength - 1) / 2;
      assert r[left + 1..][|r| - left - 2] == r[|r| - 1];
    }
  }

  // ---------------------------------------------------------------------
  // gedit_utils_make_valid_utf8

  predicate Cont(b: byte)
  {
    0x80 <= b <= 0xBF
  }

  /** Length of the well-formed UTF-8 sequence at the start of `b`
      (table 3-7 of the Unicode Standard, with NUL excluded as
      `g_utf8_validate` does), or 0 when none starts there. */
  function SeqLen(b: seq<byte>): (n: nat)
    ensures n <= |b| && (b == [] ==> n == 0)
  {
    if b == [] then 0
    else
      var c := b[0];
      if 0x01 <= c <= 0x7F then 1
      else if 0xC2 <= c <= 0xDF then
        if |b| >= 2 && Cont(b[1]) then 2 else 0
      else if 0xE0 <= c <= 0xEF then
        var lo: byte := if c == 0xE0 then 0xA0 else 0x80;
        var hi: byte := if c == 0xED then 0x9F else 0xBF;
        if |b| >= 3 && lo <= b[1] <= hi && Cont(b[2]) then 3 else 0
      else if 0xF0 <= c <= 0xF4 then
        var lo: byte := if c == 0xF0 then 0x90 else 0x80;
        var hi: byte := if c == 0xF4 then 0x8F else 0xBF;
        if |b| >= 4 && lo <= b[1] <= hi && Cont(b[2]) && Cont(b[3]) then 4 else 0
      else 0
  }

  /** Length of the longest prefix of `b` made of well-formed sequences:
      where `g_utf8_validate` reports the first invalid byte. */
  function ValidPrefixLen(b: seq<byte>): (n: nat)
    ensures n <= |b|
    decreases |b|
  {
    if b == [] then 0
    else if SeqLen(b) == 0 then 0
    else SeqLen(b) + ValidPrefixLen(b[SeqLen(b)..])
  }

  predicate ValidUtf8(b: seq<byte>)
  {
    ValidPrefixLen(b) == |b|
  }

  /** U+FFFD REPLACEMENT CHARACTER. */
  const Replacement: seq<byte> := [0xEF, 0xBF, 0xBD]

  /** The repaired text: each byte at which validation fails is replaced by
      U+FFFD and validation resumes after it. */
  function Repaired(b: seq<byte>): seq<byte>
    decreases |b|, 1
  {
    RepairedAfter(b, ValidPrefixLen(b))
  }

  /** The repaired text when the first `v` bytes are valid and byte `v`, if
      any, is not. */
  function RepairedAfter(b: seq<byte>, v: nat): seq<byte>
    requires v <= |b|
    decreases |b|, 0
  {
    if v == |b| then b
    else b[..v] + Replacement + Repaired(b[v + 1..])
  }

  /** Lines 625-662. */
  method MakeValidUtf8(name: seq<byte>) returns (r: seq<byte>)
    ensures r == Repaired(name)
  {
    // `str` stays NULL (here: `started` false) until an invalid byte is met
    var started := false;
    var str: seq<byte> := [];
    var remainder := name;
    while |remainder| != 0
      invariant !started ==> remainder == name && str == []
      invariant str + Repaired(remainder) == Repaired(name)
    {
      var valid := ValidPrefixLen(remainder);
      if valid == |remainder| {
        break;
      }
      RepairedStep(remainder, valid, str);
      started := true;
      str := str + remainder[..valid] + Replacement;
      remainder := remainder[valid + 1..];
    }
    if !started {
      return name;
    }
    return str + remainder;
  }

  /** One round of the repair loop, after the output `done`. */
  lemma RepairedStep(x: seq<byte>, v: nat, done: seq<byte>)
    requires v == ValidPrefixLen(x) && v != |x|
    ensures v < |x|
    ensures done + Repaired(x) == (done + x[..v] + Replacement) + Repaired(x[v + 1..])
  {
    RepairedUnfold(x, v);
    AppendAssoc(done, x[..v], Replacement, Repaired(x[v + 1..]));
  }

  lemma RepairedUnfold(x: seq<byte>, v: nat)
    requires v == ValidPrefixLen(x) && v != |x|
    ensures Repaired(x) == x[..v] + Replacement + Repaired(x[v + 1..])
  {
    RepairedAfterUnfold(x, v, Repaired(x[v + 1..]));
  }

  lemma RepairedAfterUnfold(x: seq<byte>, v: nat, rest: seq<byte>)
    requires v < |x| && rest == Repaired(x[v + 1..])
    ensures RepairedAfter(x, v) == x[..v] + Replacement + rest
  {
  }

  lemma AppendAssoc<T>(a: seq<T>, b: seq<T>, c: seq<T>, d: seq<T>)
    ensures a + (b + c + d) == a + b + c + d
  {
  }

  /** `SeqLen` only looks at the bytes of the sequence it finds. */
  lemma SeqLenStable(a: seq<byte>, b: seq<byte>)
    requires SeqLen(a) > 0 && |b| >= SeqLen(a) && b[..SeqLen(a)] == a[..SeqLen(a)]
    ensures SeqLen(b) == SeqLen(a)
  {
    var n := SeqLen(a);
    assert b[0] == b[..n][0] == a[..n][0] == a[0];
    if n >= 2 {
      assert b[1] == b[..n][1] == a[..n][1] == a[1];
    }
    if n >= 3 {
      assert b[2] == b[..n][2] == a[..n][2] == a[2];
    }
    if n >= 4 {
      assert b[3] == b[..n][3] == a[..n][3] == a[3];
    }
  }

  lemma {:induction false} ValidConcat(a: seq<byte>, b: seq<byte>)
    requires ValidUtf8(a) && ValidUtf8(b)
    ensures ValidUtf8(a + b)
    decreases |a|
  {
    if a != [] {
      var n := SeqLen(a);
      SeqLenStable(a, a + b);
      assert (a + b)[n..] == a[n..] + b;
      ValidConcat(a[n..], b);
    } else {
      assert a + b == b;
    }
  }

  lemma {:induction false} ValidPrefixIsValid(b: seq<byte>)
    ensures ValidUtf8(b[..ValidPrefixLen(b)])
    decreases |b|
  {
    var v := ValidPrefixLen(b);
    if v > 0 {
      var n := SeqLen(b);
      assert v == n + ValidPrefixLen(b[n..]);
      var p := b[..v];
      assert p[..n] == b[..n];
      SeqLenStable(b, p);
      var rest := b[n..];
      ValidPrefixIsValid(rest);
      assert p[n..] == rest[..v - n];
      assert ValidPrefixLen(p) == n + ValidPrefixLen(p[n..]);
    }
  }

  /** The repaired text is always valid UTF-8, and valid text is left as it
      is. */
  lemma {:induction false} RepairedIsValid(b: seq<byte>)
    ensures ValidUtf8(Repaired(b))
    ensures ValidUtf8(b) ==> Repaired(b) == b
    decreases |b|
  {
    if ValidPrefixLen(b) != |b| {
      var v := ValidPrefixLen(b);
      RepairedIsValid(b[v + 1..]);
      ValidPrefixIsValid(b);
      assert ValidUtf8(Replacement) by {
        assert SeqLen(Replacement) == 3;
        assert Replacement[3..] == [];
      }
      ValidConcat(Replacement, Repaired(b[v + 1..]));
      ValidConcat(b[..v], Replacement + Repaired(b[v + 1..]));
      assert b[..v] + Replacement + Repaired(b[v + 1..]) == b[..v] + (Replacement + Repaired(b[v + 1..]));
    }
  }

  // ---------------------------------------------------------------------
  // gedit_utils_replace_home_dir_with_tilde

  /** Lines 689-732, with the home directory (already in UTF-8) as a
      parameter; None when it is unknown or cannot be converted. */
  function ReplaceHomeDirWithTilde(uri: string, home: Option<string>): (r: string)
    ensures home.None? ==> r == uri
    ensures home.Some? && uri == home.value ==> r == "~"
    ensures home.Some? && uri != home.value && IsPrefix(home.value + "/", uri) ==>
      r == "~/" + uri[|home.value| + 1..]
    ensures home.Some? && uri != home.value && !IsPrefix(home.value + "/", uri) ==> r == uri
  {
    if home.None? then uri
    else if uri == home.value then "~"
    else if IsPrefix(home.value + "/", uri) then "~/" + uri[|home.value| + 1..]
    else uri
  }

  /** How a path shown with a tilde is read back. */
  function ExpandTilde(s: string, home: string): string
  {
    if s == "~" then home
    else if |s| >= 2 && s[..2] == "~/" then home + "/" + s[2..]
    else s
  }

  /** Reading the shortened path back gives the original, for paths that do
      not themselves start with a tilde. */
  lemma TildeRoundTrip(uri: string, home: Option<string>)
    requires home.Some?
    requires uri == [] || uri[0] != '~'
    ensures ExpandTilde(ReplaceHomeDirWithTilde(uri, home), home.value) == uri
  {
    var h := home.value;
    if uri != h && IsPrefix(h + "/", uri) {
      var r := "~/" + uri[|h| + 1..];
      assert r[..2] == "~/" && r[2..] == uri[|h| + 1..];
      assert uri == uri[..|h| + 1] + uri[|h| + 1..];
    }
  }

  // ---------------------------------------------------------------------
  // gedit_utils_is_valid_uri

  /** `*p` on a NUL-terminated string: the terminator past the end. */
  function At(b: seq<byte>, i: nat): byte
  {
    if i < |b| then b[i] else 0
  }

  predicate CString(b: seq<byte>)
  {
    forall i :: 0 <= i < |b| ==> b[i] != 0
  }

  predicate IsAsciiAlnum(c: byte)
  {
    (0x30 <= c <= 0x39) || (0x41 <= c <= 0x5A) || (0x61 <= c <= 0x7A)
  }

  predicate IsAsciiHex(c: byte)
  {
    (0x30 <= c <= 0x39) || (0x41 <= c <= 0x46) || (0x61 <= c <= 0x66)
  }

  /** Lines 824-828: letters, digits, `+`, `-` and `.`. */
  predicate IsValidSchemeCharacter(c: byte)
  {
    IsAsciiAlnum(c) || c == 0x2B || c == 0x2D || c == 0x2E
  }

  const Colon: byte := 0x3A
  const Percent: byte := 0x25

  /** A non-empty run of scheme characters followed by `:`. */
  predicate HasScheme(b: seq<byte>)
  {
    exists k :: 1 <= k < |b| && b[k] == Colon && forall j :: 0 <= j < k ==> IsValidSchemeCharacter(b[j])
  }

  /** Lines 830-846. */
  method HasValidScheme(uri: seq<byte>) returns (r: bool)
    requires CString(uri)
    ensures r <==> HasScheme(uri)
  {
    if !IsValidSchemeCharacter(At(uri, 0)) {
      return false;
    }
    var p := 1;
    while IsValidSchemeCharacter(At(uri, p))
      invariant 1 <= p <= |uri|
      invariant forall j :: 0 <= j < p ==> IsValidSchemeCharacter(uri[j])
      decreases |uri| - p
    {
      p := p + 1;
    }
    r := At(uri, p) == Colon;
  }

  /** What a valid URI is: it has a scheme, every byte is printable ASCII
      other than the space (33 to 127), and every `%` is followed by two hex
      digits. */
  predicate ValidUri(b: seq<byte>)
  {
    && HasScheme(b)
    && (forall i :: 0 <= i < |b| ==> 33 <= b[i] <= 127)
    && (forall i :: 0 <= i < |b| && b[i] == Percent ==> i + 2 < |b| && IsAsciiHex(b[i + 1]) && IsAsciiHex(b[i + 2]))
  }

  /** Lines 848-879. */
  method IsValidUri(uri: Option<seq<byte>>) returns (r: bool)
    requires uri.Some? ==> CString(uri.value)
    ensures r <==> uri.Some? && ValidUri(uri.value)
  {
    if uri.None? {
      return false;
    }
    var b := uri.value;
    var scheme := HasValidScheme(b);
    if !scheme {
      return false;
    }
    var p := 0;
    while p < |b|
      invariant 0 <= p <= |b|
      invariant forall i :: 0 <= i < p ==> 33 <= b[i] <= 127
      invariant forall i :: 0 <= i < p && b[i] == Percent ==> i + 2 < |b| && IsAsciiHex(b[i + 1]) && IsAsciiHex(b[i + 2])
    {
      if b[p] == Percent {
        if !IsAsciiHex(At(b, p + 1)) {
          return false;
        }
        if !IsAsciiHex(At(b, p + 2)) {
          return false;
        }
        p := p + 3;
      } else {
        if b[p] <= 32 || b[p] >= 128 {
          return false;
        }
        p := p + 1;
      }
    }
    return true;
  }

  /** Every character of `s` fits in a byte. */
  predicate Latin1(s: string)
  {
    forall k :: 0 <= k < |s| ==> s[k] as int < 256
  }

  /** A URI string as the bytes `gedit_utils_is_valid_uri` looks at. */
  function ToBytes(s: string): (b: seq<byte>)
    requires Latin1(s)
    ensures |b| == |s| && forall k :: 0 <= k < |s| ==> b[k] as int == s[k] as int
  {
    if s == [] then [] else [s[0] as int as byte] + ToBytes(s[1..])
  }

  /** A URI held as text that `gedit_utils_is_valid_uri` accepts. */
  predicate AcceptableUri(uri: string)
  {
    Latin1(uri) && ValidUri(ToBytes(uri))
  }
}
