/** gedit/gedit-prefs-manager.c: the GConf-backed preference store with its
    writable-guarded setters and typed getters with defaults, the
    string codecs of the enumerated preferences, the colour format and the
    encoding list. The GConf client is a map from keys to values and a set
    of writable keys. */
module GeditPrefsManager {
  import opened Common
  import GeditTextBuffer

  // ---------------------------------------------------------------------
  // Enumerated preferences and their string codecs

  /** GtkWrapMode. */
  datatype WrapMode = WrapNone | WrapChar | WrapWord | WrapWordChar

  /** GeditSaveEncodingSetting. */
  datatype SaveEncodingSetting =
    | SaveCurrentLocaleIfPossible
    | SaveOriginalFileEncodingIfPossible
    | SaveOriginalFileEncodingIfPossibleNcl
    | SaveAlwaysUtf8

  /** GeditToolbarSetting. */
  datatype ToolbarSetting = ToolbarSystem | ToolbarIcons | ToolbarIconsAndText | ToolbarIconsBothHoriz

  /** `get_wrap_mode_from_string`, lines 626-644: anything but the two
      names of NONE and CHAR reads as WORD. */
  function WrapModeFromString(s: string): (m: WrapMode)
    ensures m != WrapWordChar
    ensures s != "GTK_WRAP_NONE" && s != "GTK_WRAP_CHAR" ==> m == WrapWord
  {
    if s == "GTK_WRAP_NONE" then WrapNone
    else if s == "GTK_WRAP_CHAR" then WrapChar
    else WrapWord
  }

  /** The string `gedit_prefs_manager_set_wrap_mode` stores (lines
      666-688); WORD_CHAR has no name of its own and is stored as WORD. */
  function WrapModeToString(m: WrapMode): string
  {
    match m
    case WrapNone => "GTK_WRAP_NONE"
    case WrapChar => "GTK_WRAP_CHAR"
    case _ => "GTK_WRAP_WORD"
  }

  /** Setting then getting the wrap mode gives it back, except WORD_CHAR,
      which reads back as WORD. */
  lemma WrapModeRoundTrip(m: WrapMode)
    ensures m != WrapWordChar ==> WrapModeFromString(WrapModeToString(m)) == m
    ensures m == WrapWordChar ==> WrapModeFromString(WrapModeToString(m)) == WrapWord
    ensures WrapModeToString(WrapModeFromString(WrapModeToString(m))) == WrapModeToString(m)
  {
  }

  /** The print wrap mode (lines 809-833): an unknown name reads as CHAR. */
  function PrintWrapModeFromString(s: string): (m: WrapMode)
    ensures m != WrapWordChar
    ensures s != "GTK_WRAP_NONE" && s != "GTK_WRAP_WORD" ==> m == WrapChar
  {
    if s == "GTK_WRAP_NONE" then WrapNone
    else if s == "GTK_WRAP_WORD" then WrapWord
    else WrapChar
  }

  /** Lines 835-858: WORD_CHAR is stored as CHAR. */
  function PrintWrapModeToString(m: WrapMode): string
  {
    match m
    case WrapNone => "GTK_WRAP_NONE"
    case WrapWord => "GTK_WRAP_WORD"
    case _ => "GTK_WRAP_CHAR"
  }

  lemma PrintWrapModeRoundTrip(m: WrapMode)
    ensures m != WrapWordChar ==> PrintWrapModeFromString(PrintWrapModeToString(m)) == m
    ensures m == WrapWordChar ==> PrintWrapModeFromString(PrintWrapModeToString(m)) == WrapChar
  {
  }

  /** The two wrap preferences read the same names but default
      differently. */
  lemma WrapDefaultsDiffer()
    ensures WrapModeFromString("") == WrapWord && PrintWrapModeFromString("") == WrapChar
  {
  }

  /** `gedit_prefs_manager_get_save_encoding`, lines 552-581. */
  function SaveEncodingFromString(s: string): (r: SaveEncodingSetting)
    ensures (&& s != "GEDIT_SAVE_CURRENT_LOCALE_IF_POSSIBLE"
             && s != "GEDIT_SAVE_ORIGINAL_FILE_ENCODING_IF_POSSIBLE"
             && s != "GEDIT_SAVE_ORIGINAL_FILE_ENCODING_IF_POSSIBLE_NCL") ==> r == SaveAlwaysUtf8
  {
    if s == "GEDIT_SAVE_CURRENT_LOCALE_IF_POSSIBLE" then SaveCurrentLocaleIfPossible
    else if s == "GEDIT_SAVE_ORIGINAL_FILE_ENCODING_IF_POSSIBLE" then SaveOriginalFileEncodingIfPossible
    else if s == "GEDIT_SAVE_ORIGINAL_FILE_ENCODING_IF_POSSIBLE_NCL" then SaveOriginalFileEncodingIfPossibleNcl
    else SaveAlwaysUtf8
  }

  /** `gedit_prefs_manager_set_save_encoding`, lines 584-611. */
  function SaveEncodingToString(se: SaveEncodingSetting): string
  {
    match se
    case SaveCurrentLocaleIfPossible => "GEDIT_SAVE_CURRENT_LOCALE_IF_POSSIBLE"
    case SaveOriginalFileEncodingIfPossible => "GEDIT_SAVE_ORIGINAL_FILE_ENCODING_IF_POSSIBLE"
    case SaveOriginalFileEncodingIfPossibleNcl => "GEDIT_SAVE_ORIGINAL_FILE_ENCODING_IF_POSSIBLE_NCL"
    case SaveAlwaysUtf8 => "GEDIT_SAVE_ALWAYS_UTF8"
  }

  /** All four settings round-trip, and distinct settings are stored under
      distinct names. */
  lemma SaveEncodingRoundTrip(se: SaveEncodingSetting, se': SaveEncodingSetting)
    ensures SaveEncodingFromString(SaveEncodingToString(se)) == se
    ensures se != se' ==> SaveEncodingToString(se) != SaveEncodingToString(se')
  {
  }

  /** `gedit_prefs_manager_get_toolbar_buttons_style`, lines 727-757. */
  function ToolbarStyleFromString(s: string): (r: ToolbarSetting)
    ensures (&& s != "GEDIT_TOOLBAR_ICONS" && s != "GEDIT_TOOLBAR_ICONS_AND_TEXT"
             && s != "GEDIT_TOOLBAR_ICONS_BOTH_HORIZ") ==> r == ToolbarSystem
  {
    if s == "GEDIT_TOOLBAR_ICONS" then ToolbarIcons
    else if s == "GEDIT_TOOLBAR_ICONS_AND_TEXT" then ToolbarIconsAndText
    else if s == "GEDIT_TOOLBAR_ICONS_BOTH_HORIZ" then ToolbarIconsBothHoriz
    else ToolbarSystem
  }

  /** `gedit_prefs_manager_set_toolbar_buttons_style`, lines 759-786. */
  function ToolbarStyleToString(tbs: ToolbarSetting): string
  {
    match tbs
    case ToolbarIcons => "GEDIT_TOOLBAR_ICONS"
    case ToolbarIconsAndText => "GEDIT_TOOLBAR_ICONS_AND_TEXT"
    case ToolbarIconsBothHoriz => "GEDIT_TOOLBAR_ICONS_BOTH_HORIZ"
    case ToolbarSystem => "GEDIT_TOOLBAR_SYSTEM"
  }

  lemma ToolbarStyleRoundTrip(tbs: ToolbarSetting, tbs': ToolbarSetting)
    ensures ToolbarStyleFromString(ToolbarStyleToString(tbs)) == tbs
    ensures tbs != tbs' ==> ToolbarStyleToString(tbs) != ToolbarStyleToString(tbs')
  {
  }

  // ---------------------------------------------------------------------
  // Colours

  /** A 16-bit colour component. */
  newtype Component = n: int | 0 <= n < 0x1_0000

  /** The lowercase hexadecimal digit of `d`, as `%x` prints it. */
  function HexDigit(d: nat): (c: char)
    requires d < 16
    ensures '0' <= c <= '9' || 'a' <= c <= 'f'
  {
    if d < 10 then ('0' as int + d) as char else ('a' as int + d - 10) as char
  }

  /** The value of a digit `HexDigit` prints. */
  function HexValue(c: char): nat
  {
    if '0' <= c <= '9' then c as int - '0' as int
    else if 'a' <= c <= 'f' then c as int - 'a' as int + 10
    else 0
  }

  /** `%04x`: four digits, most significant first. */
  function Hex4(n: Component): (s: string)
    ensures |s| == 4
  {
    var v1 := n as int / 16;
    var v2 := v1 / 16;
    [HexDigit(v2 / 16), HexDigit(v2 % 16), HexDigit(v1 % 16), HexDigit(n as int % 16)]
  }

  /** The number four hex digits denote. */
  function ParseHex4(s: string): int
    requires |s| == 4
  {
    ((HexValue(s[0]) * 16 + HexValue(s[1])) * 16 + HexValue(s[2])) * 16 + HexValue(s[3])
  }

  lemma HexDigitValue(d: nat)
    requires d < 16
    ensures HexValue(HexDigit(d)) == d
  {
  }

  lemma Hex4RoundTrip(n: Component)
    ensures ParseHex4(Hex4(n)) == n as int
  {
    var v1 := n as int / 16;
    var v2 := v1 / 16;
    HexDigitValue(v2 / 16);
    HexDigitValue(v2 % 16);
    HexDigitValue(v1 % 16);
    HexDigitValue(n as int % 16);
  }

  /** `gdk_color_to_string`, lines 303-312: `#` and four lowercase hex
      digits for each of red, green and blue. */
  function ColorToString(red: Component, green: Component, blue: Component): (s: string)
    ensures |s| == 13 && s[0] == '#'
    ensures forall i :: 1 <= i < 13 ==> '0' <= s[i] <= '9' || 'a' <= s[i] <= 'f'
  {
    "#" + Hex4(red) + Hex4(green) + Hex4(blue)
  }

  /** The three components can be read back from the string. */
  lemma ColorToStringRoundTrip(red: Component, green: Component, blue: Component)
    ensures var s := ColorToString(red, green, blue);
      ParseHex4(s[1..5]) == red as int && ParseHex4(s[5..9]) == green as int && ParseHex4(s[9..13]) == blue as int
  {
    var s := ColorToString(red, green, blue);
    assert s[1..5] == Hex4(red) && s[5..9] == Hex4(green) && s[9..13] == Hex4(blue);
    Hex4RoundTrip(red);
    Hex4RoundTrip(green);
    Hex4RoundTrip(blue);
  }

  // ---------------------------------------------------------------------
  // The store

  /** A GConf value. */
  datatype Value = BoolValue(b: bool) | IntValue(i: int) | StringValue(s: string) | ListValue(l: seq<string>)

  /** The keys of the preferences modelled here; their full GConf paths
      are defined in gedit-prefs-manager.h, which is not part of this model. */
  const WrapModeKey := "wrap_mode"
  const PrintWrapModeKey := "print_wrap_mode"
  const SaveEncodingKey := "save_encoding"
  const ToolbarStyleKey := "toolbar_buttons_style"
  const EncodingsKey := "encodings"

  /** `gconf_client_get_bool_with_default`, lines 1122-1154: the default
      when the key is unset or holds another type. */
  function GetBool(store: map<string, Value>, key: string, def: bool): (b: bool)
    ensures key in store && store[key].BoolValue? ==> b == store[key].b
    ensures !(key in store && store[key].BoolValue?) ==> b == def
  {
    if key in store && store[key].BoolValue? then store[key].b else def
  }

  /** `gconf_client_get_int_with_default`, lines 1181-1213. */
  function GetInt(store: map<string, Value>, key: string, def: int): (i: int)
    ensures key in store && store[key].IntValue? ==> i == store[key].i
    ensures !(key in store && store[key].IntValue?) ==> i == def
  {
    if key in store && store[key].IntValue? then store[key].i else def
  }

  /** `gconf_client_get_string_with_default`, lines 1156-1179. */
  function GetString(store: map<string, Value>, key: string, def: string): (s: string)
    ensures key in store && store[key].StringValue? ==> s == store[key].s
    ensures !(key in store && store[key].StringValue?) ==> s == def
  {
    if key in store && store[key].StringValue? then store[key].s else def
  }

  /** A value is read back under the type it was stored with. */
  lemma StoredValuesReadBack(store: map<string, Value>, key: string, b: bool, i: int, s: string, def: Value)
    ensures GetBool(store[key := BoolValue(b)], key, !b) == b
    ensures GetInt(store[key := IntValue(i)], key, i + 1) == i
    ensures GetString(store[key := StringValue(s)], key, s + "x") == s
    ensures GetInt(store[key := BoolValue(b)], key, i) == i
  {
  }

  /** The charsets of the encoding list as `get_encodings` maps them
      (lines 923-968): `current` stands for the locale charset, charsets
      without an encoding are dropped and the order is kept. */
  function EncodingsOf(charsets: seq<string>, locale: string,
                       fromCharset: string -> Option<GeditTextBuffer.Encoding>): (r: seq<GeditTextBuffer.Encoding>)
    ensures |r| <= |charsets|
  {
    if charsets == [] then []
    else
      var c := if charsets[0] == "current" then locale else charsets[0];
      (if fromCharset(c).Some? then [fromCharset(c).value] else []) + EncodingsOf(charsets[1..], locale, fromCharset)
  }

  /** Mapping a list is mapping its two halves. */
  lemma {:induction false} EncodingsOfAppend(a: seq<string>, b: seq<string>, locale: string,
                                            fromCharset: string -> Option<GeditTextBuffer.Encoding>)
    ensures EncodingsOf(a + b, locale, fromCharset) == EncodingsOf(a, locale, fromCharset) + EncodingsOf(b, locale, fromCharset)
  {
    if a != [] {
      assert (a + b)[0] == a[0] && (a + b)[1..] == a[1..] + b;
      EncodingsOfAppend(a[1..], b, locale, fromCharset);
    } else {
      assert a + b == b;
    }
  }

  /** The charsets `set_encodings` writes, in list order (lines 970-1003). */
  function Charsets(encs: seq<GeditTextBuffer.Encoding>): (r: seq<string>)
    ensures |r| == |encs| && forall i :: 0 <= i < |encs| ==> r[i] == encs[i].charset
  {
    if encs == [] then [] else [encs[0].charset] + Charsets(encs[1..])
  }

  /** Writing a list of encodings and reading it back gives the list again
      when every charset names its encoding and none is called `current`. */
  lemma {:induction false} EncodingsRoundTrip(encs: seq<GeditTextBuffer.Encoding>, locale: string,
                                             fromCharset: string -> Option<GeditTextBuffer.Encoding>)
    requires forall e :: e in encs ==> fromCharset(e.charset) == Some(e) && e.charset != "current"
    ensures EncodingsOf(Charsets(encs), locale, fromCharset) == encs
  {
    if encs != [] {
      assert Charsets(encs)[1..] == Charsets(encs[1..]);
      EncodingsRoundTrip(encs[1..], locale, fromCharset);
    }
  }

  class PrefsManager {
    var store: map<string, Value>
    var writable: set<string>

    constructor(initial: map<string, Value>, writableKeys: set<string>)
      ensures store == initial && writable == writableKeys
    {
      store := initial;
      writable := writableKeys;
    }

    /** `gedit_prefs_manager_set_bool`, lines 251-262: only a writable key
        is written. */
    method SetBool(key: string, value: bool)
      modifies this
      ensures store == if key in old(writable) then old(store)[key := BoolValue(value)] else old(store)
      ensures writable == old(writable)
    {
      if key !in writable {
        return;
      }
      store := store[key := BoolValue(value)];
    }

    /** `gedit_prefs_manager_set_int`, lines 264-275. */
    method SetInt(key: string, value: int)
      modifies this
      ensures store == if key in old(writable) then old(store)[key := IntValue(value)] else old(store)
      ensures writable == old(writable)
    {
      if key !in writable {
        return;
      }
      store := store[key := IntValue(value)];
    }

    /** `gedit_prefs_manager_set_string`, lines 277-290. */
    method SetString(key: string, value: string)
      modifies this
      ensures store == if key in old(writable) then old(store)[key := StringValue(value)] else old(store)
      ensures writable == old(writable)
    {
      if key !in writable {
        return;
      }
      store := store[key := StringValue(value)];
    }

    /** `gedit_prefs_manager_set_wrap_mode`; a wrap mode stored this way is
        what `gedit_prefs_manager_get_wrap_mode` then reads. */
    method SetWrapMode(m: WrapMode)
      modifies this
      ensures store == if WrapModeKey in old(writable) then old(store)[WrapModeKey := StringValue(WrapModeToString(m))] else old(store)
      ensures WrapModeKey in old(writable) && m != WrapWordChar ==> GetWrapMode("") == m
      ensures writable == old(writable)
    {
      SetString(WrapModeKey, WrapModeToString(m));
    }

    /** `gedit_prefs_manager_get_wrap_mode`, lines 647-663, with `def` the
        default name. */
    function GetWrapMode(def: string): (r: WrapMode)
      reads this
      ensures r != WrapWordChar
      ensures forall m :: WrapModeKey in store && store[WrapModeKey] == StringValue(WrapModeToString(m)) && m != WrapWordChar ==> r == m
    {
      WrapModeFromString(GetString(store, WrapModeKey, def))
    }

    method SetPrintWrapMode(m: WrapMode)
      modifies this
      ensures store == if PrintWrapModeKey in old(writable) then old(store)[PrintWrapModeKey := StringValue(PrintWrapModeToString(m))] else old(store)
      ensures PrintWrapModeKey in old(writable) && m != WrapWordChar ==> GetPrintWrapMode("") == m
      ensures writable == old(writable)
    {
      SetString(PrintWrapModeKey, PrintWrapModeToString(m));
    }

    function GetPrintWrapMode(def: string): (r: WrapMode)
      reads this
      ensures r != WrapWordChar
      ensures forall m :: PrintWrapModeKey in store && store[PrintWrapModeKey] == StringValue(PrintWrapModeToString(m)) && m != WrapWordChar ==> r == m
    {
      PrintWrapModeFromString(GetString(store, PrintWrapModeKey, def))
    }

    method SetSaveEncoding(se: SaveEncodingSetting)
      modifies this
      ensures store == if SaveEncodingKey in old(writable) then old(store)[SaveEncodingKey := StringValue(SaveEncodingToString(se))] else old(store)
      ensures SaveEncodingKey in old(writable) ==> GetSaveEncoding("") == se
      ensures writable == old(writable)
    {
      SetString(SaveEncodingKey, SaveEncodingToString(se));
      SaveEncodingRoundTrip(se, se);
    }

    function GetSaveEncoding(def: string): (r: SaveEncodingSetting)
      reads this
      ensures forall m :: SaveEncodingKey in store && store[SaveEncodingKey] == StringValue(SaveEncodingToString(m)) ==> r == m
    {
      SaveEncodingFromString(GetString(store, SaveEncodingKey, def))
    }

    method SetToolbarStyle(tbs: ToolbarSetting)
      modifies this
      ensures store == if ToolbarStyleKey in old(writable) then old(store)[ToolbarStyleKey := StringValue(ToolbarStyleToString(tbs))] else old(store)
      ensures ToolbarStyleKey in old(writable) ==> GetToolbarStyle("") == tbs
      ensures writable == old(writable)
    {
      SetString(ToolbarStyleKey, ToolbarStyleToString(tbs));
      ToolbarStyleRoundTrip(tbs, tbs);
    }

    function GetToolbarStyle(def: string): (r: ToolbarSetting)
      reads this
      ensures forall m :: ToolbarStyleKey in store && store[ToolbarStyleKey] == StringValue(ToolbarStyleToString(m)) ==> r == m
    {
      ToolbarStyleFromString(GetString(store, ToolbarStyleKey, def))
    }

    /** `gedit_prefs_manager_get_encodings`, lines 923-968: the stored
        charset list, each mapped to its encoding. */
    method GetEncodings(locale: string, fromCharset: string -> Option<GeditTextBuffer.Encoding>)
      returns (res: seq<GeditTextBuffer.Encoding>)
      ensures EncodingsKey in store && store[EncodingsKey].ListValue? ==>
        res == EncodingsOf(store[EncodingsKey].l, locale, fromCharset)
      ensures !(EncodingsKey in store && store[EncodingsKey].ListValue?) ==> res == []
    {
      if !(EncodingsKey in store && store[EncodingsKey].ListValue?) {
        return [];
      }
      var strings := store[EncodingsKey].l;
      res := [];
      var i := 0;
      while i < |strings|
        invariant 0 <= i <= |strings|
        invariant res == EncodingsOf(strings[..i], locale, fromCharset)
      {
        var charset := strings[i];
        if charset == "current" {
          charset := locale;
        }
        var enc := fromCharset(charset);
        EncodingsOfAppend(strings[..i], [strings[i]], locale, fromCharset);
        assert strings[..i + 1] == strings[..i] + [strings[i]];
        if enc.Some? {
          res := res + [enc.value];
        }
        i := i + 1;
      }
      assert strings[..i] == strings;
    }

    /** `gedit_prefs_manager_set_encodings`, lines 970-1003: when the key
        is writable, the charsets of the encodings in list order. */
    method SetEncodings(encs: seq<GeditTextBuffer.Encoding>)
      modifies this
      ensures store == if EncodingsKey in old(writable) then old(store)[EncodingsKey := ListValue(Charsets(encs))] else old(store)
      ensures writable == old(writable)
    {
      if EncodingsKey !in writable {
        return;
      }
      var list := [];
      var i := 0;
      while i < |encs|
        invariant 0 <= i <= |encs|
        invariant list == Charsets(encs[..i])
      {
        list := list + [encs[i].charset];
        i := i + 1;
      }
      assert encs[..i] == encs;
      store := store[EncodingsKey := ListValue(list)];
    }
  }
}
