/** The snippet catalog of the snippets plugin
    (plugins/snippets/snippets/SnippetsLibrary.py): namespaced ids, the
    property defaults of a snippet, the per-language containers that index
    snippets by tag and by accelerator, and the library that keeps user
    files before system files, counts references to each language and
    falls back to the global snippets. */
module SnippetsLibrary {
  import opened Common
  import GeditSearch

  /** A language name; None stands for the global snippets. */
  type Language = Option<string>

  /** A SnippetData object, by identity (the class defines no equality, so
      Python's `list.remove` and `in` compare identities). */
  type SnippetRef = nat

  /** Python truthiness of an optional string. */
  predicate Truthy(s: Option<string>)
  {
    s.Some? && s.value != ""
  }

  // ---------------------------------------------------------------------
  // Namespaced ids (lines 25-35)

  /** The namespace part of an id: the language, or "global" without one. */
  function Namespace(namespace: Option<string>): string
  {
    if Truthy(namespace) then namespace.value else "global"
  }

  /** NamespacedId(namespace, id).id: no id for an empty one, otherwise the
      id behind its namespace and a dash. */
  function NamespacedId(namespace: Option<string>, id: Option<string>): (r: Option<string>)
    ensures r.None? <==> !Truthy(id)
    ensures r.Some? ==> IsPrefix(Namespace(namespace) + "-", r.value)
    ensures r.Some? ==> r.value[|Namespace(namespace)| + 1..] == id.value
  {
    if !Truthy(id) then None else Some(Namespace(namespace) + "-" + id.value)
  }

  /** Within one namespace distinct ids stay distinct. */
  lemma NamespacedIdInjective(namespace: Option<string>, a: Option<string>, b: Option<string>)
    requires NamespacedId(namespace, a) == NamespacedId(namespace, b)
    ensures Truthy(a) <==> Truthy(b)
    ensures Truthy(a) ==> a == b
  {
    if Truthy(a) {
      var r := NamespacedId(namespace, a).value;
      assert a.value == r[|Namespace(namespace)| + 1..] == b.value;
    }
  }

  /** No namespace, an empty one and a language called "global" share the
      same ids. */
  lemma NamespacedIdGlobal(id: Option<string>)
    ensures NamespacedId(None, id) == NamespacedId(Some(""), id) == NamespacedId(Some("global"), id)
    ensures Truthy(id) ==> NamespacedId(None, id) != NamespacedId(Some("c"), id)
  {
    if Truthy(id) {
      var g := NamespacedId(None, id).value;
      assert g[0] == 'g';
      assert NamespacedId(Some("c"), id).value[0] == 'c';
    }
  }

  // ---------------------------------------------------------------------
  // Snippet properties (lines 38-108)

  /** SnippetData.PROPS: the properties every snippet has, with defaults. */
  const Defaults: map<string, string> :=
    map["tag" := "", "text" := "", "description" := "New snippet", "accelerator" := ""]

  /** A child element of a <snippet> node: its tag and its text. */
  datatype Child = Child(tag: string, text: Option<string>)

  /** The text of the first child called `key`, if there is one. */
  function FirstText(children: seq<Child>, key: string): Option<Option<string>>
  {
    if children == [] then None
    else if children[0].tag == key then Some(children[0].text)
    else FirstText(children[1..], key)
  }

  /** A child text is found exactly when some child has the tag. */
  lemma {:induction false} FirstTextFound(children: seq<Child>, key: string)
    ensures FirstText(children, key).Some? <==> exists i :: 0 <= i < |children| && children[i].tag == key
  {
    if children != [] && children[0].tag != key {
      FirstTextFound(children[1..], key);
      assert forall i :: 1 <= i < |children| ==> children[i] == children[1..][i - 1];
    }
  }

  lemma {:induction false} FirstTextSnoc(cs: seq<Child>, c: Child, key: string)
    ensures FirstText(cs + [c], key) ==
              if FirstText(cs, key).Some? then FirstText(cs, key)
              else if c.tag == key then Some(c.text) else None
  {
    if cs != [] {
      assert (cs + [c])[1..] == cs[1..] + [c];
      FirstTextSnoc(cs[1..], c, key);
    }
  }

  /** What a child's text is stored as: `text or ''`, an accelerator first
      normalised by `canon`, which stands for GTK's accelerator_parse,
      accelerator_valid and accelerator_name (None for an invalid one,
      which is stored as ''). */
  function Stored(key: string, text: Option<string>, canon: string -> Option<string>): string
  {
    if text.None? then ""
    else if key == "accelerator" then (if canon(text.value).Some? then canon(text.value).value else "")
    else text.value
  }

  /** The value a property starts with: from the first child of its name,
      else its default. */
  function Initial(children: seq<Child>, key: string, canon: string -> Option<string>): string
    requires key in Defaults
  {
    var t := FirstText(children, key);
    if t.Some? then Stored(key, t.value, canon) else Defaults[key]
  }

  /** init_snippet_data (lines 62-99): every property of PROPS gets a value,
      from the first child element of its name (later ones are ignored),
      else its default; nothing else becomes a property. */
  method InitProperties(children: seq<Child>, canon: string -> Option<string>) returns (properties: map<string, string>)
    ensures properties.Keys == Defaults.Keys
    ensures forall k :: k in Defaults ==> properties[k] == Initial(children, k, canon)
  {
    var props;
    props, properties := StorePresent(children, canon);
    var rest := props.Keys;
    while rest != {}
      invariant rest <= props.Keys
      invariant properties.Keys == Defaults.Keys - rest
      invariant forall k :: k in properties ==> properties[k] == Initial(children, k, canon)
      decreases rest
    {
      var prop :| prop in rest;
      properties := properties[prop := props[prop]];
      rest := rest - {prop};
    }
  }

  /** The first loop of init_snippet_data (lines 72-89): each property
      named by a child is stored from the first such child and struck off
      `props`, the copy of PROPS; later children of the same name are
      ignored. */
  method StorePresent(children: seq<Child>, canon: string -> Option<string>)
    returns (props: map<string, string>, properties: map<string, string>)
    ensures props.Keys <= Defaults.Keys && properties.Keys <= Defaults.Keys
    ensures forall k :: k in Defaults ==> (k in props <==> FirstText(children, k).None?)
    ensures forall k :: k in Defaults ==> (k in properties <==> FirstText(children, k).Some?)
    ensures forall k :: k in props ==> props[k] == Defaults[k]
    ensures forall k :: k in properties ==> properties[k] == Initial(children, k, canon)
  {
    props := Defaults;
    properties := map[];
    for i := 0 to |children|
      invariant props.Keys <= Defaults.Keys && properties.Keys <= Defaults.Keys
      invariant forall k :: k in Defaults ==> (k in props <==> FirstText(children[..i], k).None?)
      invariant forall k :: k in Defaults ==> (k in properties <==> FirstText(children[..i], k).Some?)
      invariant forall k :: k in props ==> props[k] == Defaults[k]
      invariant forall k :: k in properties ==> properties[k] == Initial(children[..i], k, canon)
    {
      var child := children[i];
      assert children[..i + 1] == children[..i] + [child];
      forall k
        ensures FirstText(children[..i + 1], k) ==
                  if FirstText(children[..i], k).Some? then FirstText(children[..i], k)
                  else if child.tag == k then Some(child.text) else None
      {
        FirstTextSnoc(children[..i], child, k);
      }
      if child.tag in props {
        props := props - {child.tag};
        properties := properties[child.tag := Stored(child.tag, child.text, canon)];
      }
    }
    assert children[..|children|] == children;
  }

  /** SnippetData.__getitem__ (lines 101-108): a property the snippet does
      not have reads as ''. */
  function GetItem(properties: map<string, string>, prop: string): (r: string)
    ensures prop !in properties ==> r == ""
    ensures r != "" ==> prop in properties
  {
    if prop in properties then properties[prop] else ""
  }

  /** After init_snippet_data every property reads as its initial value and
      any other name reads as ''. */
  lemma InitLookup(properties: map<string, string>, children: seq<Child>, canon: string -> Option<string>, prop: string)
    requires properties.Keys == Defaults.Keys
    requires forall k :: k in Defaults ==> properties[k] == Initial(children, k, canon)
    ensures GetItem(properties, prop) == if prop in Defaults then Initial(children, prop, canon) else ""
  {
  }

  // ---------------------------------------------------------------------
  // The per-property indexes of a LanguageContainer (lines 230-305)

  /** snippets_by_prop[prop]: snippets by property value. */
  type Index = map<string, seq<SnippetRef>>

  /** The two indexed properties. */
  datatype Prop = Tag | Accelerator

  /** from_prop (lines 299-305): the snippets indexed under `value`, none
      for a value never indexed. */
  function Lookup(index: Index, value: string): (r: seq<SnippetRef>)
    ensures value !in index ==> r == []
  {
    if value in index then index[value] else []
  }

  /** _add_prop (lines 230-250): an empty value is not indexed; otherwise
      the snippet is appended to the value's list. */
  function Indexed(index: Index, s: SnippetRef, value: string): (r: Index)
    ensures forall w :: Lookup(r, w) == if value != "" && w == value then Lookup(index, w) + [s] else Lookup(index, w)
    ensures "" !in index ==> "" !in r
  {
    if value == "" then index else index[value := Lookup(index, value) + [s]]
  }

  /** _remove_prop (lines 252-271) as evidently intended: an empty value
      is ignored, and so is a value or a snippet that is not indexed;
      otherwise the first occurrence of the snippet leaves the value's
      list. */
  function Unindexed(index: Index, s: SnippetRef, value: string): (r: Index)
    ensures forall w :: Lookup(r, w) == if value != "" && w == value then RemoveFirst(Lookup(index, w), s) else Lookup(index, w)
    ensures "" !in index ==> "" !in r
  {
    if value == "" || value !in index then index else index[value := RemoveFirst(index[value], s)]
  }

  lemma {:induction false} RemoveFirstLast<T>(l: seq<T>, x: T)
    requires x !in l
    ensures RemoveFirst(l + [x], x) == l
  {
    if l != [] {
      assert (l + [x])[1..] == l[1..] + [x];
      RemoveFirstLast(l[1..], x);
    }
  }

  /** Indexing a snippet and unindexing it again gives the index back, as
      seen through from_prop. */
  lemma IndexRoundTrip(index: Index, s: SnippetRef, value: string)
    requires s !in Lookup(index, value)
    ensures forall w :: Lookup(Unindexed(Indexed(index, s, value), s, value), w) == Lookup(index, w)
  {
    if value != "" {
      RemoveFirstLast(Lookup(index, value), s);
    }
  }

  /** prop_changed (lines 293-297) on one index: the snippet leaves the
      list of its old value and joins the end of the list of its new one. */
  lemma PropChangedMoves(index: Index, s: SnippetRef, oldValue: string, newValue: string)
    requires oldValue != newValue && oldValue != ""
    requires s in Lookup(index, oldValue)
    ensures var r := Indexed(Unindexed(index, s, oldValue), s, newValue);
            Count(Lookup(r, oldValue), s) == Count(Lookup(index, oldValue), s) - 1
            && (newValue != "" ==> Lookup(r, newValue) == Lookup(index, newValue) + [s])
  {
    CountRemoveFirst(Lookup(index, oldValue), s);
  }

  lemma {:induction false} CountRemoveFirst<T>(l: seq<T>, x: T)
    requires x in l
    ensures Count(RemoveFirst(l, x), x) == Count(l, x) - 1
  {
    if l[0] != x {
      assert l == [l[0]] + l[1..];
      CountAppend([l[0]], l[1..], x);
      CountRemoveFirst(l[1..], x);
      CountAppend([l[0]], RemoveFirst(l[1..], x), x);
    } else {
      assert l == [l[0]] + l[1..];
      CountAppend([l[0]], l[1..], x);
    }
  }

  /** `try: l.remove(s) except IndexError: True` as written: Python's
      list.remove raises ValueError, not IndexError, so removing an absent
      snippet is not caught (None). */
  function RemovedAsWritten(l: seq<SnippetRef>, s: SnippetRef): (r: Option<seq<SnippetRef>>)
    ensures r.None? <==> s !in l
    ensures r.Some? ==> r.value == RemoveFirst(l, s)
  {
    if s in l then Some(RemoveFirst(l, s)) else None
  }

  /** _remove_prop as written (lines 252-271): an unindexed value raises
      KeyError and an unindexed snippet ValueError, neither of them caught
      (None). */
  function UnindexedAsWritten(index: Index, s: SnippetRef, value: string): (r: Option<Index>)
  {
    if value == "" then Some(index)
    else if value !in index then None
    else
      var l := RemovedAsWritten(index[value], s);
      if l.None? then None else Some(index[value := l.value])
  }

  /** The written _remove_prop fails exactly when the snippet is not
      indexed under a non-empty value, and otherwise does what was meant. */
  lemma UnindexedAsWrittenAgrees(index: Index, s: SnippetRef, value: string)
    ensures UnindexedAsWritten(index, s, value).None? <==> value != "" && s !in Lookup(index, value)
    ensures UnindexedAsWritten(index, s, value).Some? ==> UnindexedAsWritten(index, s, value).value == Unindexed(index, s, value)
  {
  }

  /** LanguageContainer.remove of a snippet that was never appended: the
      written code lets ValueError escape from its first line, where the
      corrected container leaves everything as it was. */
  lemma RemoveAbsentRaises(s: SnippetRef)
    ensures RemovedAsWritten([], s).None?
    ensures UnindexedAsWritten(map["t" := []], s, "t").None?
    ensures RemoveFirst([], s) == [] && Unindexed(map["t" := []], s, "t") == map["t" := []]
  {
  }

  // ---------------------------------------------------------------------
  // LanguageContainer (lines 222-316)

  class LanguageContainer {
    var language: Language
    var snippets: seq<SnippetRef>
    var byTag: Index
    var byAccelerator: Index
    var refs: nat

    function IndexOf(prop: Prop): Index
      reads this
    {
      if prop == Tag then byTag else byAccelerator
    }

    /** Empty property values are never indexed. */
    ghost predicate Valid()
      reads this`byTag, this`byAccelerator
    {
      "" !in byTag && "" !in byAccelerator
    }

    /** __init__ (lines 223-228); the GTK accelerator group is not modelled. */
    constructor(language: Language)
      ensures Valid() && this.language == language
      ensures snippets == [] && byTag == map[] && byAccelerator == map[] && refs == 0
    {
      this.language := language;
      snippets := [];
      byTag := map[];
      byAccelerator := map[];
      refs := 0;
    }

    /** _add_prop (lines 230-250). */
    method AddProp(s: SnippetRef, prop: Prop, value: string)
      requires Valid()
      modifies this`byTag, this`byAccelerator
      ensures Valid()
      ensures IndexOf(prop) == Indexed(old(IndexOf(prop)), s, value)
      ensures prop == Tag ==> byAccelerator == old(byAccelerator)
      ensures prop == Accelerator ==> byTag == old(byTag)
    {
      if value == "" {
        return;
      }
      if prop == Tag {
        byTag := byTag[value := Lookup(byTag, value) + [s]];
      } else {
        byAccelerator := byAccelerator[value := Lookup(byAccelerator, value) + [s]];
      }
    }

    /** _remove_prop (lines 252-271), with the failed removal ignored. */
    method RemoveProp(s: SnippetRef, prop: Prop, value: string)
      requires Valid()
      modifies this`byTag, this`byAccelerator
      ensures Valid()
      ensures IndexOf(prop) == Unindexed(old(IndexOf(prop)), s, value)
      ensures prop == Tag ==> byAccelerator == old(byAccelerator)
      ensures prop == Accelerator ==> byTag == old(byTag)
    {
      if value == "" {
        return;
      }
      if prop == Tag {
        if value in byTag {
          byTag := byTag[value := RemoveFirst(byTag[value], s)];
        }
      } else {
        if value in byAccelerator {
          byAccelerator := byAccelerator[value := RemoveFirst(byAccelerator[value], s)];
        }
      }
    }

    /** append (lines 273-282): the snippet joins the list and the indexes
        of its tag and its accelerator. */
    method Append(s: SnippetRef, tag: string, accelerator: string) returns (r: SnippetRef)
      requires Valid()
      modifies this`snippets, this`byTag, this`byAccelerator
      ensures Valid() && r == s
      ensures snippets == old(snippets) + [s]
      ensures byTag == Indexed(old(byTag), s, tag)
      ensures byAccelerator == Indexed(old(byAccelerator), s, accelerator)
    {
      snippets := snippets + [s];
      AddProp(s, Tag, tag);
      AddProp(s, Accelerator, accelerator);
      r := s;
    }

    /** remove (lines 284-291), with the failed removal ignored. */
    method Remove(s: SnippetRef, tag: string, accelerator: string)
      requires Valid()
      modifies this`snippets, this`byTag, this`byAccelerator
      ensures Valid()
      ensures snippets == RemoveFirst(old(snippets), s)
      ensures byTag == Unindexed(old(byTag), s, tag)
      ensures byAccelerator == Unindexed(old(byAccelerator), s, accelerator)
    {
      snippets := RemoveFirst(snippets, s);
      RemoveProp(s, Tag, tag);
      RemoveProp(s, Accelerator, accelerator);
    }

    /** prop_changed (lines 293-297): unindex under the old value, index
        under the current one. */
    method PropChanged(s: SnippetRef, prop: Prop, oldValue: string, newValue: string)
      requires Valid()
      modifies this`byTag, this`byAccelerator
      ensures Valid()
      ensures IndexOf(prop) == Indexed(Unindexed(old(IndexOf(prop)), s, oldValue), s, newValue)
      ensures IndexOf(if prop == Tag then Accelerator else Tag) == old(IndexOf(if prop == Tag then Accelerator else Tag))
    {
      RemoveProp(s, prop, oldValue);
      AddProp(s, prop, newValue);
    }

    /** ref (lines 307-310). */
    method Ref() returns (r: bool)
      modifies this`refs
      ensures refs == old(refs) + 1 && r
    {
      refs := refs + 1;
      r := true;
    }

    /** unref (lines 312-316): the count never drops below zero, and the
        answer says whether references remain. */
    method Unref() returns (remain: bool)
      modifies this`refs
      ensures refs == Max(old(refs) - 1, 0)
      ensures remain <==> old(refs) > 1
    {
      if refs > 0 {
        refs := refs - 1;
      }
      remain := refs != 0;
    }
  }

  // ---------------------------------------------------------------------
  // Languages and library files (lines 318-555, 747-751)

  /** ASCII lower case, standing for Python's str.lower. */
  function Lowered(s: string): (r: string)
    ensures |r| == |s|
    ensures forall i :: 0 <= i < |r| ==> !('A' <= r[i] <= 'Z')
    ensures forall i :: 0 <= i < |r| ==> r[i] == s[i] || 'A' <= s[i] <= 'Z'
  {
    seq(|s|, i requires 0 <= i < |s| => GeditSearch.AsciiLower(s[i]))
  }

  /** normalize_language (lines 747-751): a language name in lower case;
      None and the empty name are kept as they are. */
  function Normalize(language: Language): (r: Language)
    ensures r.Some? <==> language.Some?
    ensures Truthy(r) <==> Truthy(language)
  {
    if Truthy(language) then Some(Lowered(language.value)) else language
  }

  /** Normalising twice changes nothing. */
  lemma NormalizeIdempotent(language: Language)
    ensures Normalize(Normalize(language)) == Normalize(language)
  {
    if Truthy(language) {
      var once := Lowered(language.value);
      var twice := Lowered(once);
      assert forall i :: 0 <= i < |once| ==> twice[i] == once[i];
      assert twice == once;
    }
  }

  /** A snippets file (SnippetsSystemFile or SnippetsUserFile), by the
      fields the library consults; `modifier` only means something for a
      user file. */
  datatype LibraryFile = LibraryFile(uid: nat, isUser: bool, modifier: bool, ok: bool, loaded: bool, language: Language)

  /** Every user file comes before every system file. */
  predicate UserFirst(files: seq<LibraryFile>)
  {
    forall i, j :: 0 <= i < j < |files| && files[j].isUser ==> files[i].isUser
  }

  /** The list add_library leaves (lines 691-698): a user file goes to the
      front, a system file to the back. */
  function Shelved(files: seq<LibraryFile>, file: LibraryFile): (r: seq<LibraryFile>)
    ensures UserFirst(files) ==> UserFirst(r)
    ensures multiset(r) == multiset(files) + multiset{file}
    ensures file.isUser ==> r[0] == file && r[1..] == files
    ensures !file.isUser ==> r[..|files|] == files && r[|files|] == file
  {
    if file.isUser then [file] + files else files + [file]
  }

  /** unload (lines 449-454): the file forgets its language and is no
      longer loaded. */
  function Unloaded(file: LibraryFile): LibraryFile
  {
    file.(language := None, loaded := false, ok := true)
  }

  /** Every file of a list unloaded. */
  function AllUnloaded(files: seq<LibraryFile>): (r: seq<LibraryFile>)
    ensures |r| == |files| && forall i :: 0 <= i < |r| ==> r[i] == Unloaded(files[i])
  {
    seq(|files|, i requires 0 <= i < |files| => Unloaded(files[i]))
  }

  /** The number of user files the list starts with. */
  function UserRun(files: seq<LibraryFile>): (n: nat)
    ensures n <= |files|
    ensures forall j :: 0 <= j < n ==> files[j].isUser
    ensures n < |files| ==> !files[n].isUser
  {
    if files == [] || !files[0].isUser then 0
    else
      var n := 1 + UserRun(files[1..]);
      assert forall j :: 1 <= j < |files| ==> files[j] == files[1..][j - 1];
      n
  }

  /** The last modifiable user file of a list. */
  function LastModifier(files: seq<LibraryFile>): (r: Option<LibraryFile>)
    ensures r.Some? ==> r.value in files && r.value.isUser && r.value.modifier
    ensures r.None? <==> forall f :: f in files ==> !(f.isUser && f.modifier)
  {
    if files == [] then None
    else
      var f := files[|files| - 1];
      assert files == files[..|files| - 1] + [f];
      if f.isUser && f.modifier then Some(f) else LastModifier(files[..|files| - 1])
  }

  /** The file get_user_library picks (lines 620-625): the last
      modifiable user file before the first system file. */
  function UserTarget(files: seq<LibraryFile>): Option<LibraryFile>
  {
    LastModifier(files[..UserRun(files)])
  }

  /** The language of a user file create_root makes for `language` (lines
      501-517 and 333-337): the name in lower case; no language for a
      missing or empty name. */
  function CreatedLanguage(language: Language): (r: Language)
    ensures Truthy(language) ==> r == Normalize(language)
    ensures !Truthy(language) ==> r.None?
  {
    if Truthy(language) then Some(Lowered(language.value)) else None
  }

  /** Whether that file is a modifier (lines 489-499): its file name is
      `<language>.xml` or `global.xml`, which fails only when the name
      holds a slash, so that the file's basename is shorter. */
  function CreatedModifier(language: Language): bool
  {
    language.None? || '/' !in language.value
  }

  // ---------------------------------------------------------------------
  // Snippet data in the library

  /** What the library keeps of a SnippetData object. */
  datatype SnippetData = SnippetData(id: Option<string>, override: Option<string>,
                                     properties: map<string, string>, library: Option<nat>)

  /** A <snippet> element: its id and override attributes and its
      children. */
  datatype Element = Element(id: Option<string>, override: Option<string>, children: seq<Child>)

  /** What add_snippet does with a snippet of namespaced id `id`: keep it
      as the data of an override, refuse it as a duplicate, or load it. */
  datatype Fate = Overriding | Duplicate | Loaded

  function FateOf(id: Option<string>, overridden: map<Option<string>, Option<SnippetRef>>, loadedIds: seq<string>): Fate
  {
    if id in overridden then Overriding
    else if id.Some? && id.value in loadedIds then Duplicate
    else Loaded
  }

  /** remove_container's first loop on loaded_ids (lines 754-756): the id
      of each snippet, in order, leaves the list once. */
  function Forgotten(ids: seq<string>, snippets: seq<SnippetRef>, data: map<SnippetRef, SnippetData>): seq<string>
    requires forall s :: s in snippets ==> s in data
  {
    if snippets == [] then ids
    else
      var rest := Forgotten(ids, snippets[..|snippets| - 1], data);
      var d := data[snippets[|snippets| - 1]];
      if d.id.Some? && d.id.value in rest then RemoveFirst(rest, d.id.value) else rest
  }

  /** remove_container's deletions from `overridden` (lines 758-759). */
  function Dropped(overridden: map<Option<string>, Option<SnippetRef>>, snippets: seq<SnippetRef>,
                   data: map<SnippetRef, SnippetData>): (r: map<Option<string>, Option<SnippetRef>>)
    requires forall s :: s in snippets ==> s in data
    ensures forall k :: k in r <==> k in overridden && forall s :: s in snippets ==> data[s].override != k
  {
    if snippets == [] then overridden
    else
      var last := snippets[|snippets| - 1];
      assert snippets == snippets[..|snippets| - 1] + [last];
      var rest := Dropped(overridden, snippets[..|snippets| - 1], data);
      if data[last].override in rest then rest - {data[last].override} else rest
  }

  /** With no id loaded twice, removing a container unloads the id of
      every snippet it held and loads no id twice. */
  lemma {:induction false} ForgottenDropsIds(ids: seq<string>, snippets: seq<SnippetRef>, data: map<SnippetRef, SnippetData>)
    requires forall s :: s in snippets ==> s in data
    requires NoDuplicates(ids)
    ensures NoDuplicates(Forgotten(ids, snippets, data))
    ensures forall y :: y in Forgotten(ids, snippets, data) ==> y in ids
    ensures forall s :: s in snippets && data[s].id.Some? ==> data[s].id.value !in Forgotten(ids, snippets, data)
  {
    if snippets != [] {
      var init := snippets[..|snippets| - 1];
      var last := snippets[|snippets| - 1];
      assert snippets == init + [last];
      ForgottenDropsIds(ids, init, data);
      var rest := Forgotten(ids, init, data);
      var d := data[last];
      if d.id.Some? && d.id.value in rest {
        RemoveFirstNoDup(rest, d.id.value);
      }
    }
  }

  /** What add_snippet leaves behind, given the snippet's fate, the
      reference `h` a new SnippetData gets, the snippet's id, the id its
      override data carries and its override: an overriding snippet only
      records its data as the override of its id; a duplicate changes
      nothing; a loaded one joins the container, loads its id and records
      its override. Only a loaded snippet is returned. */
  ghost predicate Admitted(r: Option<SnippetRef>, fate: Fate, h: SnippetRef,
                           id: Option<string>, overrideId: Option<string>, override: Option<string>,
                           oldData: map<SnippetRef, SnippetData>, data: map<SnippetRef, SnippetData>,
                           oldSnippets: seq<SnippetRef>, snippets: seq<SnippetRef>,
                           oldLoaded: seq<string>, loaded: seq<string>,
                           oldOverridden: map<Option<string>, Option<SnippetRef>>, overridden: map<Option<string>, Option<SnippetRef>>)
  {
    && (r.Some? <==> fate == Loaded)
    && (fate == Overriding ==>
          loaded == oldLoaded && overridden == oldOverridden[id := Some(h)]
          && snippets == oldSnippets && h in data && data[h].id == overrideId)
    && (fate == Duplicate ==>
          loaded == oldLoaded && overridden == oldOverridden && snippets == oldSnippets)
    && (fate == Loaded ==>
          r == Some(h) && h !in oldData && h in data && data[h].id == id
          && snippets == oldSnippets + [h]
          && loaded == oldLoaded + (if id.Some? then [id.value] else [])
          && overridden == if Truthy(override) && override !in oldOverridden
                           then oldOverridden[override := None] else oldOverridden)
  }

  // ---------------------------------------------------------------------
  // SnippetsLibraryImpl (lines 557-875)

  class LibraryImpl {
    var libraries: map<Language, seq<LibraryFile>>
    var containers: map<Language, LanguageContainer>
    var overridden: map<Option<string>, Option<SnippetRef>>
    var loadedIds: seq<string>
    /** The SnippetData objects the library made, by identity. */
    var data: map<SnippetRef, SnippetData>
    var nextSnippet: SnippetRef
    var nextLibrary: nat

    /** The snippets of a language's container; none without one. */
    function SnippetsOf(language: Language): seq<SnippetRef>
      reads this`containers, containers.Values
    {
      if language in containers then containers[language].snippets else []
    }

    /** Containers are distinct objects keyed by normalised languages,
        empty values are never indexed, every contained snippet is known,
        user files precede system files and no id is loaded twice. */
    ghost predicate Valid()
      reads this`libraries, this`containers, this`data, this`nextSnippet, this`loadedIds, containers.Values
    {
      ContainersValid() && Known()
      && (forall l :: l in libraries ==> UserFirst(libraries[l]))
      && NoDuplicates(loadedIds)
    }

    /** Containers are distinct objects keyed by normalised languages, and
        none indexes an empty value. */
    ghost predicate ContainersValid()
      reads this`containers, containers.Values
    {
      (forall a, b :: a in containers && b in containers && a != b ==> containers[a] != containers[b])
      && (forall l :: l in containers ==> Normalize(l) == l && containers[l].Valid())
    }

    /** Every contained snippet has its data, made before `nextSnippet`. */
    ghost predicate Known()
      reads this`containers, this`data, this`nextSnippet, containers.Values
    {
      (forall l, s :: l in containers && s in containers[l].snippets ==> s in data)
      && (forall s :: s in data ==> s < nextSnippet)
    }

    /** __init__ and set_dirs (lines 558-572); the directories are not
        modelled. */
    constructor()
      ensures Valid()
      ensures libraries == map[] && containers == map[] && overridden == map[] && loadedIds == [] && data == map[]
    {
      libraries := map[];
      containers := map[];
      overridden := map[];
      loadedIds := [];
      data := map[];
      nextSnippet := 0;
      nextLibrary := 0;
    }

    /** container (lines 609-615): the container of the normalised
        language, made empty on first use. */
    method Container(language: Language) returns (c: LanguageContainer)
      requires Valid()
      modifies this`containers
      ensures Valid()
      ensures containers == old(containers)[Normalize(language) := c]
      ensures Normalize(language) in old(containers) ==> c == old(containers)[Normalize(language)]
      ensures forall l :: l in old(containers) ==> containers[l] == old(containers)[l]
      ensures Normalize(language) !in old(containers) ==>
                fresh(c) && c.snippets == [] && c.byTag == map[] && c.byAccelerator == map[] && c.refs == 0
    {
      var l := Normalize(language);
      if l !in containers {
        var made := new LanguageContainer(l);
        NormalizeIdempotent(language);
        containers := containers[l := made];
      }
      c := containers[l];
    }

    /** add_snippet (lines 581-607), around overrided (lines 663-673) and
        add_override (lines 675-679). A snippet whose id is overridden is
        kept only as the override's data (with its id taken in the global
        namespace, as SnippetData(element, None) computes it); a snippet
        whose id is already loaded is refused; any other joins its
        language's container, its override is recorded and its id is
        loaded. */
    method AddSnippet(lib: LibraryFile, element: Element, canon: string -> Option<string>) returns (r: Option<SnippetRef>)
      requires Valid()
      modifies this`containers, this`data, this`nextSnippet, this`overridden, this`loadedIds, containers.Values
      ensures Valid()
      ensures Normalize(lib.language) in containers
      ensures containers == old(containers)[Normalize(lib.language) := containers[Normalize(lib.language)]]
      ensures Normalize(lib.language) in old(containers) ==> containers == old(containers)
      ensures forall l :: l in old(containers) && l != Normalize(lib.language) ==> containers[l].snippets == old(containers[l].snippets)
      ensures Admitted(r, FateOf(NamespacedId(lib.language, element.id), old(overridden), old(loadedIds)), old(nextSnippet),
                       NamespacedId(lib.language, element.id), NamespacedId(None, element.id), element.override,
                       old(data), data, old(SnippetsOf(Normalize(lib.language))), SnippetsOf(Normalize(lib.language)),
                       old(loadedIds), loadedIds, old(overridden), overridden)
    {
      var language := Normalize(lib.language);
      var c := Container(lib.language);
      ghost var mid := containers;
      assert mid == old(containers)[language := c] && (language in old(containers) ==> mid == old(containers));
      assert SnippetsOf(language) == old(SnippetsOf(language));
      r := AddData(language, lib, element, canon);
      assert containers == mid;
    }

    /** The rest of add_snippet (lines 583-607) once the container exists:
        the snippet's data is built and meets one of the three fates. */
    method AddData(language: Language, lib: LibraryFile, element: Element, canon: string -> Option<string>) returns (r: Option<SnippetRef>)
      requires Valid() && language in containers
      modifies this`data, this`nextSnippet, this`overridden, this`loadedIds, containers[language]
      ensures Valid()
      ensures forall l :: l in containers && l != language ==> containers[l].snippets == old(containers[l].snippets)
      ensures Admitted(r, FateOf(NamespacedId(lib.language, element.id), old(overridden), old(loadedIds)), old(nextSnippet),
                       NamespacedId(lib.language, element.id), NamespacedId(None, element.id), element.override,
                       old(data), data, old(SnippetsOf(language)), SnippetsOf(language),
                       old(loadedIds), loadedIds, old(overridden), overridden)
    {
      var id := NamespacedId(lib.language, element.id);
      var properties := InitProperties(element.children, canon);
      var overrideData := SnippetData(NamespacedId(None, element.id), element.override, properties, Some(lib.uid));
      var d := SnippetData(id, element.override, properties, Some(lib.uid));
      r := Admit(language, id, overrideData, d);
    }

    /** add_snippet once the container exists: the three fates. */
    method Admit(language: Language, id: Option<string>, overrideData: SnippetData, d: SnippetData) returns (r: Option<SnippetRef>)
      requires Valid() && language in containers && d.id == id
      modifies this`data, this`nextSnippet, this`overridden, this`loadedIds, containers[language]
      ensures Valid()
      ensures forall l :: l in containers && l != language ==> containers[l].snippets == old(containers[l].snippets)
      ensures Admitted(r, FateOf(id, old(overridden), old(loadedIds)), old(nextSnippet), id, overrideData.id, d.override,
                       old(data), data, old(SnippetsOf(language)), SnippetsOf(language),
                       old(loadedIds), loadedIds, old(overridden), overridden)
      ensures FateOf(id, old(overridden), old(loadedIds)) == Overriding ==> data[old(nextSnippet)] == overrideData
      ensures FateOf(id, old(overridden), old(loadedIds)) == Loaded ==> data[old(nextSnippet)] == d
    {
      var fate := FateOf(id, overridden, loadedIds);
      if fate == Overriding {
        KeepOverride(id, overrideData);
        r := None;
      } else if fate == Duplicate {
        r := None;
      } else {
        var h := Load(language, id, d, GetItem(d.properties, "tag"), GetItem(d.properties, "accelerator"));
        r := Some(h);
      }
    }

    /** The overridden branch of add_snippet (lines 583-588, 663-673): the
        data is kept as the override of `id`. */
    method KeepOverride(id: Option<string>, d: SnippetData)
      requires Valid()
      modifies this`data, this`nextSnippet, this`overridden
      ensures Valid()
      ensures nextSnippet == old(nextSnippet) + 1 && data == old(data)[old(nextSnippet) := d]
      ensures overridden == old(overridden)[id := Some(old(nextSnippet))]
    {
      var h := Remember(d);
      overridden := overridden[id := Some(h)];
    }

    /** The loading branch of add_snippet (lines 590-607): the snippet
        joins the language's container and its id and override are
        recorded. */
    method Load(language: Language, id: Option<string>, d: SnippetData, tag: string, accelerator: string) returns (h: SnippetRef)
      requires Valid() && language in containers && !(id.Some? && id.value in loadedIds)
      modifies this`data, this`nextSnippet, this`overridden, this`loadedIds, containers[language]
      ensures Valid()
      ensures h == old(nextSnippet) && h !in old(data) && data == old(data)[h := d]
      ensures SnippetsOf(language) == old(SnippetsOf(language)) + [h]
      ensures forall l :: l in containers && l != language ==> containers[l].snippets == old(containers[l].snippets)
      ensures loadedIds == old(loadedIds) + (if id.Some? then [id.value] else [])
      ensures overridden == if Truthy(d.override) && d.override !in old(overridden)
                            then old(overridden)[d.override := None] else old(overridden)
    {
      h := Remember(d);
      AppendTo(language, h, tag, accelerator);
      RecordLoaded(id, d.override);
    }

    /** A new SnippetData object. */
    method Remember(d: SnippetData) returns (h: SnippetRef)
      requires Known()
      modifies this`data, this`nextSnippet
      ensures Known()
      ensures h == old(nextSnippet) && h !in old(data) && data == old(data)[h := d] && nextSnippet == h + 1
    {
      h := nextSnippet;
      data := data[h := d];
      nextSnippet := nextSnippet + 1;
    }

    /** The end of add_snippet (lines 601-605): the override is recorded
        and a non-empty id loaded. */
    method RecordLoaded(id: Option<string>, override: Option<string>)
      requires NoDuplicates(loadedIds) && !(id.Some? && id.value in loadedIds)
      modifies this`overridden, this`loadedIds
      ensures NoDuplicates(loadedIds)
      ensures loadedIds == old(loadedIds) + (if id.Some? then [id.value] else [])
      ensures overridden == if Truthy(override) && override !in old(overridden)
                            then old(overridden)[override := None] else old(overridden)
    {
      if Truthy(override) && override !in overridden {
        overridden := overridden[override := None];
      }
      if id.Some? {
        loadedIds := loadedIds + [id.value];
      }
    }

    /** container.append(snippet) in add_snippet (line 597). */
    method AppendTo(language: Language, h: SnippetRef, tag: string, accelerator: string)
      requires ContainersValid() && Known() && language in containers && h in data
      modifies containers[language]
      ensures ContainersValid() && Known()
      ensures SnippetsOf(language) == old(SnippetsOf(language)) + [h]
      ensures forall l :: l in containers && l != language ==> containers[l].snippets == old(containers[l].snippets)
    {
      var _ := containers[language].Append(h, tag, accelerator);
    }

    /** add_library (lines 681-698) for a file whose language and
        well-formedness are already known: a bad file is ignored, a user
        file goes to the front of its language's list and a system file to
        the back. */
    method AddLibrary(lib: LibraryFile)
      requires Valid()
      modifies this`libraries
      ensures Valid()
      ensures !lib.ok ==> libraries == old(libraries)
      ensures lib.ok ==> libraries == old(libraries)[lib.language := Shelved(if lib.language in old(libraries) then old(libraries)[lib.language] else [], lib)]
    {
      if !lib.ok {
        return;
      }
      var files := if lib.language in libraries then libraries[lib.language] else [];
      libraries := libraries[lib.language := Shelved(files, lib)];
    }

    /** The file get_user_library would pick without making one. */
    function ExistingTarget(language: Language): Option<LibraryFile>
      reads this
    {
      if language in libraries then UserTarget(libraries[language]) else None
    }

    /** get_user_library (lines 617-635): the last modifiable user file
        before the first system file of the language; without one a new
        user file is created, loaded and added. */
    method GetUserLibrary(language: Language) returns (target: LibraryFile)
      requires Valid()
      modifies this`libraries, this`nextLibrary
      ensures Valid()
      ensures target.isUser
      ensures old(ExistingTarget(language)).Some? ==>
                target == old(ExistingTarget(language)).value && libraries == old(libraries)
      ensures old(ExistingTarget(language)).None? ==>
                target == LibraryFile(old(nextLibrary), true, CreatedModifier(CreatedLanguage(language)), true, true, CreatedLanguage(language))
                && libraries == old(libraries)[target.language := [target] + (if target.language in old(libraries) then old(libraries)[target.language] else [])]
    {
      var found: Option<LibraryFile> := None;
      if language in libraries {
        var files := libraries[language];
        var i := 0;
        while i < |files| && files[i].isUser
          invariant 0 <= i <= |files|
          invariant forall j :: 0 <= j < i ==> files[j].isUser
          invariant found == LastModifier(files[..i])
        {
          assert files[..i + 1] == files[..i] + [files[i]];
          if files[i].modifier {
            found := Some(files[i]);
          }
          i := i + 1;
        }
        assert i == UserRun(files);
      }
      if found.Some? {
        return found.value;
      }
      var created := CreatedLanguage(language);
      target := LibraryFile(nextLibrary, true, CreatedModifier(created), true, true, created);
      nextLibrary := nextLibrary + 1;
      AddLibrary(target);
    }

    /** ensure (lines 799-809) on the containers: the global one and the
        language's are made when they have files; loading the files is not
        modelled. */
    method EnsureContainers(language: Language)
      requires Valid() && Normalize(language) == language
      modifies this`containers
      ensures Valid()
      ensures forall l :: l in old(containers) ==> l in containers && containers[l] == old(containers)[l]
      ensures None in libraries ==> None in containers
      ensures language in libraries ==> language in containers
      ensures forall l :: l in containers && l !in old(containers) ==>
                (l == None || l == language) && l in libraries && containers[l].byTag == map[] && containers[l].byAccelerator == map[]
    {
      if None in libraries {
        var _ := Container(None);
      }
      if language in libraries {
        var _ := Container(language);
      }
    }

    /** from_tag and from_accelerator (lines 842-875): nothing for a
        language without a container; otherwise the language's snippets for
        the value, or, when there are none and the language is named, the
        global snippets for it. Scanning the snippet directories is not
        modelled. */
    method FromProp(prop: Prop, value: string, language: Language) returns (result: seq<SnippetRef>)
      requires Valid()
      modifies this`containers
      ensures Valid()
      ensures old(containers).Keys <= containers.Keys
      ensures Normalize(language) !in old(containers) ==> result == [] && containers == old(containers)
      ensures Normalize(language) in old(containers) ==>
                var own := Lookup(containers[Normalize(language)].IndexOf(prop), value);
                result == if own == [] && Truthy(language) && None in containers
                          then Lookup(containers[None].IndexOf(prop), value) else own
      ensures Normalize(language) in old(containers) && Lookup(containers[Normalize(language)].IndexOf(prop), value) != [] ==>
                result == Lookup(old(containers)[Normalize(language)].IndexOf(prop), value)
    {
      var l := Normalize(language);
      if l !in containers {
        return [];
      }
      NormalizeIdempotent(language);
      EnsureContainers(l);
      result := Lookup(containers[l].IndexOf(prop), value);
      if |result| == 0 && Truthy(l) && None in containers {
        result := Lookup(containers[None].IndexOf(prop), value);
      }
    }

    /** ref (lines 779-783). */
    method Ref(language: Language)
      requires Valid()
      modifies this`containers, containers.Values
      ensures Valid()
      ensures Normalize(language) in containers
      ensures containers[Normalize(language)].refs == (if Normalize(language) in old(containers) then old(containers[Normalize(language)].refs) else 0) + 1
    {
      var c := Container(language);
      var _ := c.Ref();
    }

    /** Whether unref drops the language: its last reference goes and it
        has files. */
    function Drops(language: Language): bool
      reads this, containers.Values
    {
      language in containers && containers[language].refs <= 1 && language in libraries
    }

    /** unref (lines 785-797): one reference less; when none remains and
        the language has files, its files are unloaded and its container
        removed. */
    method Unref(language: Language)
      requires Valid()
      modifies this, containers.Values
      ensures Valid()
      ensures data == old(data)
      ensures Normalize(language) in old(containers) ==>
                old(containers)[Normalize(language)].refs == Max(old(containers[Normalize(language)].refs) - 1, 0)
      ensures forall l :: l in containers ==> l in old(containers) && containers[l] == old(containers)[l]
      ensures !old(Drops(Normalize(language))) ==>
                containers == old(containers) && libraries == old(libraries)
                && loadedIds == old(loadedIds) && overridden == old(overridden)
      ensures old(Drops(Normalize(language))) ==>
                containers == old(containers) - {Normalize(language)}
                && libraries == old(libraries)[Normalize(language) := AllUnloaded(old(libraries)[Normalize(language)])]
                && loadedIds == Forgotten(old(loadedIds), old(containers[Normalize(language)].snippets), old(data))
                && overridden == Dropped(old(overridden), old(containers[Normalize(language)].snippets), old(data))
    {
      var l := Normalize(language);
      if l in containers {
        var remain := containers[l].Unref();
        if !remain && l in libraries {
          UnloadLibraries(l);
          RemoveContainer(l);
        }
      }
    }

    /** The loop of unref over the language's files (lines 794-795). */
    method UnloadLibraries(language: Language)
      requires Valid() && language in libraries
      modifies this`libraries
      ensures Valid()
      ensures libraries == old(libraries)[language := AllUnloaded(old(libraries)[language])]
    {
      var files := libraries[language];
      var unloaded: seq<LibraryFile> := [];
      for i := 0 to |files|
        invariant |unloaded| == i
        invariant forall j :: 0 <= j < i ==> unloaded[j] == Unloaded(files[j])
      {
        unloaded := unloaded + [Unloaded(files[i])];
      }
      assert unloaded == AllUnloaded(files);
      libraries := libraries[language := unloaded];
    }

    /** remove_container (lines 753-761): the ids of its snippets are
        unloaded, their overrides forgotten, and the container dropped. */
    method RemoveContainer(language: Language)
      requires Valid() && language in containers
      modifies this`loadedIds, this`overridden, this`containers
      ensures Valid()
      ensures containers == old(containers) - {language}
      ensures loadedIds == Forgotten(old(loadedIds), old(containers[language].snippets), data)
      ensures overridden == Dropped(old(overridden), old(containers[language].snippets), data)
      ensures forall s :: s in old(containers[language].snippets) && data[s].id.Some? ==> data[s].id.value !in loadedIds
    {
      var snaps := containers[language].snippets;
      ForgetSnippets(snaps);
      ForgottenDropsIds(old(loadedIds), snaps, data);
      containers := containers - {language};
    }

    /** The loop of lines 754-759: each snippet's id is unloaded and its
        override forgotten. */
    method ForgetSnippets(snaps: seq<SnippetRef>)
      requires forall s :: s in snaps ==> s in data
      modifies this`loadedIds, this`overridden
      ensures loadedIds == Forgotten(old(loadedIds), snaps, data)
      ensures overridden == Dropped(old(overridden), snaps, data)
    {
      for k := 0 to |snaps|
        invariant loadedIds == Forgotten(old(loadedIds), snaps[..k], data)
        invariant overridden == Dropped(old(overridden), snaps[..k], data)
      {
        assert snaps[..k + 1][..k] == snaps[..k];
        var d := data[snaps[k]];
        if d.id.Some? && d.id.value in loadedIds {
          loadedIds := RemoveFirst(loadedIds, d.id.value);
        }
        if d.override in overridden {
          overridden := overridden - {d.override};
        }
      }
      assert snaps[..|snaps|] == snaps;
    }
  }
}
