/** The tree model of the file browser,
    plugins/filebrowser/gedit-file-browser-store.c: nodes with flag bits
    linked to their parent and to their children in list order, a real
    root and a virtual root under which the view shows the tree, node
    visibility, the filter pass, the sort order, the GtkTreeModel
    navigation (paths, iterators and child counts, over visible nodes only)
    and the dummy "(Empty)" child every directory keeps first.

    Nodes live in a map from identifiers to records; an identifier stands
    for the node's address. Each record keeps its distance from the root
    (`depth`), which the parent links determine and which lets the model
    walk up the parent chain by recursion. */
module GeditFileBrowserStore {
  import opened Common
  import GeditSearchEntry

  type NodeId = nat

  /** The GEDIT_FILE_BROWSER_STORE_FLAG_* bits of a node. */
  datatype Flags = Flags(isDir: bool, isHidden: bool, isText: bool, loaded: bool, isFiltered: bool, isDummy: bool)

  /** A FileBrowserNode: its URI and display name (NULL for a dummy's URI),
      flag bits, parent, children (kept for directories only) and depth. */
  datatype Node = Node(uri: Option<string>, name: Option<string>, flags: Flags, parent: Option<NodeId>,
                       children: seq<NodeId>, depth: nat)

  type Tree = map<NodeId, Node>

  /** The HIDE_HIDDEN and HIDE_BINARY bits of the filter mode. */
  datatype FilterMode = FilterMode(hideHidden: bool, hideBinary: bool)

  /** A filter function, asked about a node (the store's iterator gives it
      access to the whole node record); false filters the node out. */
  type FilterFunc = Node -> bool

  datatype StoreResult = ResultOk | ResultNoChange

  /** gedit_file_browser_store_filter_mode_get_default (lines 2593-2597). */
  const DefaultFilterMode := FilterMode(true, false)

  // ---------------------------------------------------------------------
  // The shape of the tree

  /** Every parent link points at a directory of the tree one level up
      that lists the node among its children; only a node without a parent
      is at depth 0. */
  ghost predicate ParentsOk(t: Tree)
  {
    forall id {:trigger t[id].parent} :: id in t ==>
      match t[id].parent
      case None => t[id].depth == 0
      case Some(p) => p in t && t[p].depth + 1 == t[id].depth && t[p].flags.isDir && id in t[p].children
  }

  /** Every child of a node is in the tree with that node as its parent. */
  ghost predicate ChildLinksOk(t: Tree)
  {
    forall id, i :: id in t && 0 <= i < |t[id].children| ==> t[id].children[i] in t && t[t[id].children[i]].parent == Some(id)
  }

  ghost predicate DistinctChildren(t: Tree)
  {
    forall id {:trigger t[id].children} :: id in t ==> NoDuplicates(t[id].children)
  }

  /** Only directories have children. */
  ghost predicate FilesAreLeaves(t: Tree)
  {
    forall id {:trigger t[id].flags.isDir} :: id in t && !t[id].flags.isDir ==> t[id].children == []
  }

  /** A dummy is a file and the first child of its parent. */
  ghost predicate DummiesFirst(t: Tree)
  {
    forall id {:trigger t[id].flags.isDummy} :: id in t && t[id].flags.isDummy ==>
      !t[id].flags.isDir && t[id].parent.Some? && t[id].parent.value in t
      && t[t[id].parent.value].children != [] && t[t[id].parent.value].children[0] == id
  }

  /** No child after the first is a dummy. */
  ghost predicate LaterNotDummy(t: Tree)
  {
    forall id, i :: id in t && 0 < i < |t[id].children| && t[id].children[i] in t ==>
      !t[t[id].children[i]].flags.isDummy
  }

  /** The shape of the store's node table: parent and child links agree,
      children lists name distinct nodes, only directories have children
      and the dummy of a directory, if any, is its first child. */
  ghost predicate TreeOk(t: Tree)
  {
    ParentsOk(t) && ChildLinksOk(t) && DistinctChildren(t) && FilesAreLeaves(t) && DummiesFirst(t) && LaterNotDummy(t)
  }

  /** node_has_parent (lines 366-376). */
  predicate HasParent(t: Tree, n: NodeId, p: NodeId)
    requires ParentsOk(t) && n in t
    decreases t[n].depth
  {
    match t[n].parent
    case None => false
    case Some(q) => q == p || HasParent(t, q, p)
  }

  /** An ancestor is a node of the tree nearer the root, so no node is its
      own ancestor. */
  lemma {:induction false} HasParentDepth(t: Tree, n: NodeId, p: NodeId)
    requires ParentsOk(t) && n in t && HasParent(t, n, p)
    ensures p in t && t[p].depth < t[n].depth && p != n
    decreases t[n].depth
  {
    var q := t[n].parent.value;
    if q != p {
      HasParentDepth(t, q, p);
    }
  }

  /** The ancestor relation is transitive. */
  lemma {:induction false} HasParentTransitive(t: Tree, n: NodeId, m: NodeId, p: NodeId)
    requires ParentsOk(t) && n in t && m in t
    requires HasParent(t, n, m) && HasParent(t, m, p)
    ensures HasParent(t, n, p)
    decreases t[n].depth
  {
    var q := t[n].parent.value;
    if q != m {
      HasParentTransitive(t, q, m, p);
    }
  }

  /** The ancestor relation only looks at parent links and depths. */
  lemma {:induction false} HasParentFrame(t1: Tree, t2: Tree, n: NodeId, p: NodeId)
    requires ParentsOk(t1) && ParentsOk(t2) && n in t1
    requires forall id :: id in t1 ==> id in t2 && t2[id].parent == t1[id].parent && t2[id].depth == t1[id].depth
    ensures HasParent(t1, n, p) == HasParent(t2, n, p)
    decreases t1[n].depth
  {
    match t1[n].parent
    case None =>
    case Some(q) =>
      if q != p {
        HasParentFrame(t1, t2, q, p);
      }
  }

  /** model_node_visibility (lines 384-401): a missing node is invisible;
      a dummy is visible unless hidden; the virtual root is visible; any
      other node is visible when it lies under the virtual root and is not
      filtered. */
  predicate Visible(t: Tree, vroot: Option<NodeId>, n: Option<NodeId>)
    requires ParentsOk(t) && (n.Some? ==> n.value in t)
  {
    match n
    case None => false
    case Some(id) =>
      if t[id].flags.isDummy then !t[id].flags.isHidden
      else if n == vroot then true
      else vroot.Some? && HasParent(t, id, vroot.value) && !t[id].flags.isFiltered
  }

  ghost predicate InTree(t: Tree, s: seq<NodeId>)
  {
    forall i :: 0 <= i < |s| ==> s[i] in t
  }

  lemma InTreeSlices(t: Tree, s: seq<NodeId>, j: nat)
    requires InTree(t, s) && j < |s|
    ensures InTree(t, s[..j]) && InTree(t, s[j + 1..]) && s[j] in t
  {
    var rest := s[j + 1..];
    forall i | 0 <= i < |rest|
      ensures rest[i] in t
    {
      assert rest[i] == s[j + 1 + i];
    }
  }

  /** The visible nodes of `s`, in order. */
  ghost function VisibleOf(t: Tree, vroot: Option<NodeId>, s: seq<NodeId>): (r: seq<NodeId>)
    requires ParentsOk(t) && InTree(t, s)
    ensures |r| <= |s| && InTree(t, r)
    ensures forall x {:trigger x in r} {:trigger Visible(t, vroot, Some(x))} :: x in r <==> x in s && Visible(t, vroot, Some(x))
  {
    if s == [] then []
    else (if Visible(t, vroot, Some(s[0])) then [s[0]] else []) + VisibleOf(t, vroot, s[1..])
  }

  lemma {:induction false} VisibleOfAppend(t: Tree, vroot: Option<NodeId>, a: seq<NodeId>, b: seq<NodeId>)
    requires ParentsOk(t) && InTree(t, a) && InTree(t, b)
    ensures InTree(t, a + b)
    ensures VisibleOf(t, vroot, a + b) == VisibleOf(t, vroot, a) + VisibleOf(t, vroot, b)
  {
    if a == [] {
      assert a + b == b;
    } else {
      var x := a[0];
      assert (a + b)[0] == x && (a + b)[1..] == a[1..] + b;
      VisibleOfAppend(t, vroot, a[1..], b);
      var head := if Visible(t, vroot, Some(x)) then [x] else [];
      assert VisibleOf(t, vroot, a + b) == head + VisibleOf(t, vroot, a[1..] + b);
      assert VisibleOf(t, vroot, a) == head + VisibleOf(t, vroot, a[1..]);
      ConcatAssoc(head, VisibleOf(t, vroot, a[1..]), VisibleOf(t, vroot, b));
    }
  }

  lemma {:induction false} VisibleOfNoDuplicates(t: Tree, vroot: Option<NodeId>, s: seq<NodeId>)
    requires ParentsOk(t) && InTree(t, s) && NoDuplicates(s)
    ensures NoDuplicates(VisibleOf(t, vroot, s))
  {
    if s != [] {
      VisibleOfNoDuplicates(t, vroot, s[1..]);
      assert s[0] !in s[1..];
    }
  }

  lemma {:induction false} VisibleOfFrame(t1: Tree, t2: Tree, v: Option<NodeId>, s: seq<NodeId>)
    requires ParentsOk(t1) && ParentsOk(t2) && InTree(t1, s) && InTree(t2, s)
    requires forall i :: 0 <= i < |s| ==> Visible(t1, v, Some(s[i])) == Visible(t2, v, Some(s[i]))
    ensures VisibleOf(t1, v, s) == VisibleOf(t2, v, s)
  {
    if s != [] {
      VisibleOfFrame(t1, t2, v, s[1..]);
    }
  }

  /** The children a directory shows; other nodes show none. */
  ghost function VisibleChildren(t: Tree, vroot: Option<NodeId>, n: NodeId): seq<NodeId>
    requires TreeOk(t) && n in t
  {
    if t[n].flags.isDir then VisibleOf(t, vroot, t[n].children) else []
  }

  function ChildAt(s: seq<NodeId>, k: int): (r: Option<NodeId>)
    ensures r.Some? <==> 0 <= k < |s|
    ensures r.Some? ==> r.value == s[k]
  {
    if 0 <= k < |s| then Some(s[k]) else None
  }

  /** The path gedit_file_browser_store_get_path_real computes (lines
      490-532): from the virtual root down, the node's place among the
      visible children at each level; none when the node or one of its
      ancestors below the virtual root is invisible, or when the node does
      not lie under the virtual root. */
  ghost function PathOf(t: Tree, vroot: Option<NodeId>, n: NodeId): Option<seq<int>>
    requires TreeOk(t) && n in t
    decreases t[n].depth
  {
    if Some(n) == vroot then Some([])
    else match t[n].parent
      case None => None
      case Some(p) =>
        if !Visible(t, vroot, Some(n)) then None
        else match PathOf(t, vroot, p)
          case None => None
          case Some(q) => Some(q + [IndexOf(VisibleOf(t, vroot, t[p].children), n)])
  }

  /** The node gedit_file_browser_store_get_iter finds (lines 435-488):
      from the virtual root, at each level the visible child with the
      path's index, as long as the node reached is a directory. */
  ghost function NodeAt(t: Tree, vroot: Option<NodeId>, path: seq<int>): (r: Option<NodeId>)
    requires TreeOk(t) && (vroot.Some? ==> vroot.value in t)
    ensures r.Some? ==> r.value in t
    decreases |path|
  {
    if vroot.None? then None
    else if path == [] then vroot
    else match NodeAt(t, vroot, path[..|path| - 1])
      case None => None
      case Some(m) => ChildAt(VisibleChildren(t, vroot, m), path[|path| - 1])
  }

  lemma VisibleChildrenFacts(t: Tree, vroot: Option<NodeId>, m: NodeId, k: nat)
    requires TreeOk(t) && m in t && k < |VisibleChildren(t, vroot, m)|
    ensures var c := VisibleChildren(t, vroot, m)[k];
            c in t && t[c].parent == Some(m) && t[c].depth == t[m].depth + 1
            && Visible(t, vroot, Some(c)) && t[m].flags.isDir
            && IndexOf(VisibleOf(t, vroot, t[m].children), c) == k
  {
    var vs := VisibleChildren(t, vroot, m);
    var c := vs[k];
    assert c in vs;
    var j :| 0 <= j < |t[m].children| && t[m].children[j] == c;
    VisibleOfNoDuplicates(t, vroot, t[m].children);
  }

  /** A node found by a path is as deep below the virtual root as the path
      is long, and the virtual root is an ancestor of every node found by a
      non-empty path. */
  lemma {:induction false} NodeAtDepth(t: Tree, vroot: Option<NodeId>, path: seq<int>)
    requires TreeOk(t) && vroot.Some? && vroot.value in t && NodeAt(t, vroot, path).Some?
    ensures var n := NodeAt(t, vroot, path).value;
            t[n].depth == t[vroot.value].depth + |path|
            && (path != [] ==> HasParent(t, n, vroot.value))
    decreases |path|
  {
    if path != [] {
      var prefix := path[..|path| - 1];
      NodeAtDepth(t, vroot, prefix);
      var m := NodeAt(t, vroot, prefix).value;
      VisibleChildrenFacts(t, vroot, m, path[|path| - 1]);
    }
  }

  /** Round trip, node first: a node that has a path is found again by it. */
  lemma {:induction false} NodeAtPathOf(t: Tree, vroot: Option<NodeId>, n: NodeId)
    requires TreeOk(t) && n in t && (vroot.Some? ==> vroot.value in t)
    requires PathOf(t, vroot, n).Some?
    ensures NodeAt(t, vroot, PathOf(t, vroot, n).value) == Some(n)
    decreases t[n].depth
  {
    if Some(n) != vroot {
      var p := t[n].parent.value;
      PathOfUp(t, vroot, n);
      NodeAtPathOf(t, vroot, p);
      var q := PathOf(t, vroot, p).value;
      ChildrenInTree(t, p);
      assert n in VisibleOf(t, vroot, t[p].children);
      var i := IndexOf(VisibleOf(t, vroot, t[p].children), n);
      NodeAtAppend(t, vroot, q, i);
    }
  }

  /** NodeAt one index further down. */
  lemma NodeAtAppend(t: Tree, vroot: Option<NodeId>, q: seq<int>, i: int)
    requires TreeOk(t) && vroot.Some? && vroot.value in t
    ensures NodeAt(t, vroot, q + [i])
            == if NodeAt(t, vroot, q).None? then None
               else ChildAt(VisibleChildren(t, vroot, NodeAt(t, vroot, q).value), i)
  {
    SnocParts(q, i);
  }

  lemma SnocParts(q: seq<int>, i: int)
    ensures q + [i] != [] && (q + [i])[..|q + [i]| - 1] == q && (q + [i])[|q + [i]| - 1] == i
  {
  }

  /** One step of PathOf: a visible child that is not the virtual root
      extends its parent's path by its place among the visible children. */
  lemma PathOfChild(t: Tree, vroot: Option<NodeId>, m: NodeId, c: NodeId, q: seq<int>)
    requires TreeOk(t) && m in t && c in t && t[c].parent == Some(m)
    requires Some(c) != vroot && Visible(t, vroot, Some(c)) && PathOf(t, vroot, m) == Some(q)
    ensures PathOf(t, vroot, c) == Some(q + [IndexOf(VisibleOf(t, vroot, t[m].children), c)])
  {
  }

  /** One step of NodeAt: the k-th visible child of the node a prefix
      finds is found by the prefix extended with k. */
  lemma NodeAtStep(t: Tree, vroot: Option<NodeId>, path: seq<int>)
    requires TreeOk(t) && vroot.Some? && vroot.value in t && path != []
    requires NodeAt(t, vroot, path).Some?
    ensures NodeAt(t, vroot, path[..|path| - 1]).Some?
    ensures 0 <= path[|path| - 1] < |VisibleChildren(t, vroot, NodeAt(t, vroot, path[..|path| - 1]).value)|
    ensures NodeAt(t, vroot, path).value
            == VisibleChildren(t, vroot, NodeAt(t, vroot, path[..|path| - 1]).value)[path[|path| - 1]]
  {
  }

  lemma SplitLast(s: seq<int>)
    requires s != []
    ensures s[..|s| - 1] + [s[|s| - 1]] == s
  {
  }

  lemma PathStep(t: Tree, vroot: Option<NodeId>, prefix: seq<int>, k: int, m: NodeId, c: NodeId)
    requires TreeOk(t) && vroot.Some? && vroot.value in t && m in t
    requires NodeAt(t, vroot, prefix) == Some(m) && PathOf(t, vroot, m) == Some(prefix)
    requires 0 <= k < |VisibleChildren(t, vroot, m)| && c == VisibleChildren(t, vroot, m)[k]
    ensures c in t && PathOf(t, vroot, c) == Some(prefix + [k])
  {
    VisibleChildrenFacts(t, vroot, m, k);
    NodeAtDepth(t, vroot, prefix);
    PathOfChild(t, vroot, m, c, prefix);
  }

  /** Round trip, path first: the node a path finds has that path. */
  lemma {:induction false} PathOfNodeAt(t: Tree, vroot: Option<NodeId>, path: seq<int>, n: NodeId)
    requires TreeOk(t) && vroot.Some? && vroot.value in t
    requires NodeAt(t, vroot, path) == Some(n)
    ensures n in t && PathOf(t, vroot, n) == Some(path)
    decreases |path|
  {
    if path == [] {
      assert n == vroot.value;
    } else {
      var prefix := path[..|path| - 1];
      NodeAtStep(t, vroot, path);
      var m := NodeAt(t, vroot, prefix).value;
      PathOfNodeAt(t, vroot, prefix, m);
      PathStep(t, vroot, prefix, path[|path| - 1], m, n);
      SplitLast(path);
    }
  }

  /** Appending one node to a list appends it to the visible part when it
      is visible. */
  lemma VisibleOfSnoc(t: Tree, vroot: Option<NodeId>, s: seq<NodeId>, j: nat)
    requires ParentsOk(t) && InTree(t, s) && j < |s|
    ensures VisibleOf(t, vroot, s[..j + 1])
            == VisibleOf(t, vroot, s[..j]) + (if Visible(t, vroot, Some(s[j])) then [s[j]] else [])
  {
    assert s[..j + 1] == s[..j] + [s[j]];
    VisibleOfAppend(t, vroot, s[..j], [s[j]]);
    assert [s[j]][1..] == [];
  }

  /** A visible node of a list sits in the visible part at the place given
      by the visible nodes before it. */
  lemma VisibleOfSplit(t: Tree, vroot: Option<NodeId>, s: seq<NodeId>, j: nat)
    requires ParentsOk(t) && InTree(t, s) && j < |s| && Visible(t, vroot, Some(s[j]))
    ensures VisibleOf(t, vroot, s)
            == VisibleOf(t, vroot, s[..j]) + [s[j]] + VisibleOf(t, vroot, s[j + 1..])
  {
    assert s == s[..j + 1] + s[j + 1..];
    VisibleOfAppend(t, vroot, s[..j + 1], s[j + 1..]);
    VisibleOfSnoc(t, vroot, s, j);
  }

  /** The first element of a sequence, if any. */
  function Head(s: seq<NodeId>): (r: Option<NodeId>)
    ensures r == ChildAt(s, 0)
  {
    if s == [] then None else Some(s[0])
  }

  /** A path whose prefix finds nothing finds nothing. */
  lemma {:induction false} NodeAtPrefixNone(t: Tree, vroot: Option<NodeId>, path: seq<int>, i: nat)
    requires TreeOk(t) && (vroot.Some? ==> vroot.value in t) && i <= |path|
    requires NodeAt(t, vroot, path[..i]) == None
    ensures NodeAt(t, vroot, path) == None
    decreases |path| - i
  {
    if i < |path| {
      assert path[..i + 1][..i] == path[..i];
      NodeAtPrefixNone(t, vroot, path, i + 1);
    } else {
      assert path[..i] == path;
    }
  }

  /** The visible nodes after the first occurrence of `x` in `cs`. */
  ghost function VisibleAfter(t: Tree, vroot: Option<NodeId>, cs: seq<NodeId>, x: NodeId): seq<NodeId>
    requires ParentsOk(t) && InTree(t, cs) && x in cs
  {
    InTreeSlices(t, cs, IndexOf(cs, x));
    VisibleOf(t, vroot, cs[IndexOf(cs, x) + 1..])
  }

  /** In a list without repetitions split around `x`, the position of `x`
      is the length of the part before it. */
  lemma SplitAround(vs: seq<NodeId>, a: seq<NodeId>, x: NodeId, b: seq<NodeId>, k: nat)
    requires vs == a + [x] + b && NoDuplicates(vs) && k < |vs| && vs[k] == x
    ensures |a| == k && Head(b) == ChildAt(vs, k + 1)
  {
    assert vs[|a|] == x;
    if b != [] {
      assert vs[|a| + 1] == b[0];
    }
  }

  /** In a list of distinct nodes, the first visible node after the k-th
      visible one is the (k+1)-th visible one. */
  lemma NextVisibleInList(t: Tree, vroot: Option<NodeId>, cs: seq<NodeId>, k: nat)
    requires ParentsOk(t) && InTree(t, cs) && NoDuplicates(cs) && k < |VisibleOf(t, vroot, cs)|
    ensures VisibleOf(t, vroot, cs)[k] in cs
    ensures Head(VisibleAfter(t, vroot, cs, VisibleOf(t, vroot, cs)[k])) == ChildAt(VisibleOf(t, vroot, cs), k + 1)
  {
    var vs := VisibleOf(t, vroot, cs);
    var n := vs[k];
    assert n in vs;
    var j := IndexOf(cs, n);
    InTreeSlices(t, cs, j);
    VisibleOfSplit(t, vroot, cs, j);
    VisibleOfNoDuplicates(t, vroot, cs);
    SplitAround(vs, VisibleOf(t, vroot, cs[..j]), n, VisibleOf(t, vroot, cs[j + 1..]), k);
  }

  /** Moving to the next sibling steps through the visible children of a
      directory in order. */
  lemma NextSiblingEnumerates(t: Tree, vroot: Option<NodeId>, p: NodeId, k: nat)
    requires TreeOk(t) && p in t && k < |VisibleChildren(t, vroot, p)|
    ensures VisibleChildren(t, vroot, p)[k] in t
    ensures t[VisibleChildren(t, vroot, p)[k]].parent == Some(p)
    ensures InTree(t, t[p].children) && VisibleChildren(t, vroot, p)[k] in t[p].children
    ensures Head(VisibleAfter(t, vroot, t[p].children, VisibleChildren(t, vroot, p)[k]))
            == ChildAt(VisibleChildren(t, vroot, p), k + 1)
  {
    ChildrenInTree(t, p);
    VisibleChildrenFacts(t, vroot, p, k);
    NextVisibleInList(t, vroot, t[p].children, k);
  }

  lemma ChildrenInTree(t: Tree, id: NodeId)
    requires TreeOk(t) && id in t
    ensures InTree(t, t[id].children)
  {
  }

  /** One more index of a path: the child with that index among the
      visible children of the node the shorter path finds. */
  lemma NodeAtSnoc(t: Tree, vroot: Option<NodeId>, path: seq<int>, i: nat)
    requires TreeOk(t) && vroot.Some? && vroot.value in t && i < |path|
    requires NodeAt(t, vroot, path[..i]).Some?
    ensures NodeAt(t, vroot, path[..i + 1])
            == ChildAt(VisibleChildren(t, vroot, NodeAt(t, vroot, path[..i]).value), path[i])
  {
    assert path[..i + 1][..i] == path[..i];
  }

  lemma IndexOfSplit(a: seq<NodeId>, x: NodeId, b: seq<NodeId>)
    requires x !in a
    ensures x in a + [x] + b && IndexOf(a + [x] + b, x) == |a|
  {
    if a != [] {
      assert (a + [x] + b)[1..] == a[1..] + [x] + b;
      IndexOfSplit(a[1..], x, b);
    }
  }

  /** The place of a visible node among the visible nodes of a list is the
      number of visible nodes before its first occurrence. */
  lemma PlaceOfVisible(t: Tree, vroot: Option<NodeId>, cs: seq<NodeId>, j: nat)
    requires ParentsOk(t) && InTree(t, cs) && j < |cs| && Visible(t, vroot, Some(cs[j])) && cs[j] !in cs[..j]
    ensures cs[j] in VisibleOf(t, vroot, cs)
    ensures IndexOf(VisibleOf(t, vroot, cs), cs[j]) == |VisibleOf(t, vroot, cs[..j])|
  {
    VisibleOfSplit(t, vroot, cs, j);
    IndexOfSplit(VisibleOf(t, vroot, cs[..j]), cs[j], VisibleOf(t, vroot, cs[j + 1..]));
  }

  /** The path of a node whose own path is not yet known, followed by the
      steps already found below it. */
  function Extend(o: Option<seq<int>>, rest: seq<int>): (r: Option<seq<int>>)
    ensures r.Some? <==> o.Some?
    ensures r.Some? ==> r.value == o.value + rest
  {
    match o
    case None => None
    case Some(q) => Some(q + rest)
  }

  /** PathOf one level up, in the terms get_path_real computes it. */
  lemma PathOfUp(t: Tree, vroot: Option<NodeId>, n: NodeId)
    requires TreeOk(t) && n in t && Some(n) != vroot && t[n].parent.Some?
    ensures t[n].parent.value in t && n in t[t[n].parent.value].children
    ensures PathOf(t, vroot, n)
            == if Visible(t, vroot, Some(n))
               then Extend(PathOf(t, vroot, t[n].parent.value),
                           [IndexOf(VisibleOf(t, vroot, t[t[n].parent.value].children), n)])
               else None
  {
  }

  lemma ExtendNil(o: Option<seq<int>>)
    ensures Extend(o, []) == o
  {
    if o.Some? {
      assert o.value + [] == o.value;
    }
  }

  lemma ExtendEmpty(rest: seq<int>)
    ensures Extend(Some([]), rest) == Some(rest)
  {
    assert [] + rest == rest;
  }

  lemma ExtendAssoc(o: Option<seq<int>>, i: int, rest: seq<int>)
    ensures Extend(Extend(o, [i]), rest) == Extend(o, [i] + rest)
  {
    if o.Some? {
      assert o.value + [i] + rest == o.value + ([i] + rest);
    }
  }

  // ---------------------------------------------------------------------
  // Changes that keep the links

  /** `t2` keeps every node of `t1` with its parent link and depth. */
  ghost predicate SameLinks(t1: Tree, t2: Tree)
  {
    forall id :: id in t1 ==> id in t2 && t2[id].parent == t1[id].parent && t2[id].depth == t1[id].depth
  }

  /** `t2` differs from `t1` at most in flag bits other than the directory
      and dummy bits. */
  ghost predicate SameShape(t1: Tree, t2: Tree)
  {
    && t1.Keys == t2.Keys
    && forall id :: id in t1 ==>
         && t2[id].parent == t1[id].parent && t2[id].children == t1[id].children
         && t2[id].depth == t1[id].depth
         && t2[id].flags.isDir == t1[id].flags.isDir && t2[id].flags.isDummy == t1[id].flags.isDummy
  }

  lemma SameShapeParentsOk(t1: Tree, t2: Tree)
    requires ParentsOk(t1) && SameShape(t1, t2)
    ensures ParentsOk(t2) && SameLinks(t1, t2)
  {
    forall id | id in t2
      ensures match t2[id].parent
              case None => t2[id].depth == 0
              case Some(p) => p in t2 && t2[p].depth + 1 == t2[id].depth && t2[p].flags.isDir && id in t2[p].children
    {
      assert t1[id].parent == t2[id].parent;
    }
  }

  lemma SameShapeTreeOk(t1: Tree, t2: Tree)
    requires TreeOk(t1) && SameShape(t1, t2)
    ensures TreeOk(t2) && SameLinks(t1, t2)
  {
    SameShapeParentsOk(t1, t2);
    SameShapeChildLinks(t1, t2);
    SameShapeDistinct(t1, t2);
    SameShapeLeaves(t1, t2);
    SameShapeDummies(t1, t2);
    SameShapeLater(t1, t2);
  }

  lemma SameShapeChildLinks(t1: Tree, t2: Tree)
    requires ChildLinksOk(t1) && SameShape(t1, t2)
    ensures ChildLinksOk(t2)
  {
    forall id, i | id in t2 && 0 <= i < |t2[id].children|
      ensures t2[id].children[i] in t2 && t2[t2[id].children[i]].parent == Some(id)
    {
      assert t2[id].children[i] == t1[id].children[i];
    }
  }

  lemma SameShapeDistinct(t1: Tree, t2: Tree)
    requires DistinctChildren(t1) && SameShape(t1, t2)
    ensures DistinctChildren(t2)
  {
    forall id | id in t2
      ensures NoDuplicates(t2[id].children)
    {
      assert t2[id].children == t1[id].children;
    }
  }

  lemma SameShapeLeaves(t1: Tree, t2: Tree)
    requires FilesAreLeaves(t1) && SameShape(t1, t2)
    ensures FilesAreLeaves(t2)
  {
    forall id | id in t2 && !t2[id].flags.isDir
      ensures t2[id].children == []
    {
      assert !t1[id].flags.isDir;
    }
  }

  lemma SameShapeDummies(t1: Tree, t2: Tree)
    requires DummiesFirst(t1) && SameShape(t1, t2)
    ensures DummiesFirst(t2)
  {
    forall id | id in t2 && t2[id].flags.isDummy
      ensures !t2[id].flags.isDir && t2[id].parent.Some? && t2[id].parent.value in t2
              && t2[t2[id].parent.value].children != [] && t2[t2[id].parent.value].children[0] == id
    {
      assert t1[id].flags.isDummy;
    }
  }

  lemma SameShapeLater(t1: Tree, t2: Tree)
    requires LaterNotDummy(t1) && SameShape(t1, t2)
    ensures LaterNotDummy(t2)
  {
    forall id, i | id in t2 && 0 < i < |t2[id].children| && t2[id].children[i] in t2
      ensures !t2[t2[id].children[i]].flags.isDummy
    {
      assert t2[id].children == t1[id].children;
    }
  }

  /** Visibility of a node only depends on its flags and on the parent
      links. */
  lemma VisibleFrame(t1: Tree, t2: Tree, v: Option<NodeId>, x: NodeId)
    requires ParentsOk(t1) && ParentsOk(t2) && SameLinks(t1, t2) && x in t1 && t2[x].flags == t1[x].flags
    ensures x in t2 && Visible(t2, v, Some(x)) == Visible(t1, v, Some(x))
  {
    if v.Some? {
      HasParentFrame(t1, t2, x, v.value);
    }
  }

  /** The whole visible part of a list is unchanged when every node of the
      list keeps its flags. */
  lemma VisibleOfLinksFrame(t1: Tree, t2: Tree, v: Option<NodeId>, s: seq<NodeId>)
    requires ParentsOk(t1) && ParentsOk(t2) && SameLinks(t1, t2) && InTree(t1, s)
    requires forall i :: 0 <= i < |s| ==> t2[s[i]].flags == t1[s[i]].flags
    ensures InTree(t2, s) && VisibleOf(t2, v, s) == VisibleOf(t1, v, s)
  {
    forall i | 0 <= i < |s|
      ensures Visible(t1, v, Some(s[i])) == Visible(t2, v, Some(s[i]))
    {
      VisibleFrame(t1, t2, v, s[i]);
    }
    VisibleOfFrame(t1, t2, v, s);
  }

  // ---------------------------------------------------------------------
  // Filtering

  /** The FILTERED bit model_node_update_visibility (lines 830-853)
      computes: the bit is cleared first, then set when the node is hidden
      and hidden files are hidden, when it is neither text nor a directory
      and binary files are hidden, or when the filter function rejects it
      (the function sees the node with the bit cleared). */
  function FilteredAfterUpdate(mode: FilterMode, filter: Option<FilterFunc>, node: Node): (r: bool)
  {
    var cleared := node.(flags := node.flags.(isFiltered := false));
    if mode.hideHidden && node.flags.isHidden then true
    else if mode.hideBinary && !node.flags.isText && !node.flags.isDir then true
    else if filter.Some? then !filter.value(cleared)
    else false
  }

  /** The node with its FILTERED bit recomputed. */
  function UpdatedNode(mode: FilterMode, filter: Option<FilterFunc>, node: Node): (r: Node)
    ensures r.flags.isFiltered == FilteredAfterUpdate(mode, filter, node)
    ensures r.(flags := r.flags.(isFiltered := node.flags.isFiltered)) == node
  {
    node.(flags := node.flags.(isFiltered := FilteredAfterUpdate(mode, filter, node)))
  }

  /** The result does not depend on the old FILTERED bit, so updating twice
      is updating once. */
  lemma UpdateIdempotent(mode: FilterMode, filter: Option<FilterFunc>, node: Node)
    ensures UpdatedNode(mode, filter, UpdatedNode(mode, filter, node)) == UpdatedNode(mode, filter, node)
  {
    var once := UpdatedNode(mode, filter, node);
    assert once.(flags := once.flags.(isFiltered := false)) == node.(flags := node.flags.(isFiltered := false));
  }

  /** The node table after model_node_update_visibility on `id`. */
  function FilterUpdated(t: Tree, mode: FilterMode, filter: Option<FilterFunc>, id: NodeId): Tree
    requires id in t
  {
    t[id := UpdatedNode(mode, filter, t[id])]
  }

  /** After an update, a node under the virtual root that is neither a
      dummy nor the virtual root is visible exactly when no rule of the
      filter mode and no filter function excludes it; the dummy's and the
      virtual root's visibility do not change. */
  lemma VisibleAfterUpdate(t: Tree, v: Option<NodeId>, mode: FilterMode, filter: Option<FilterFunc>, id: NodeId)
    requires TreeOk(t) && id in t
    ensures TreeOk(FilterUpdated(t, mode, filter, id)) && SameLinks(t, FilterUpdated(t, mode, filter, id))
    ensures t[id].flags.isDummy || Some(id) == v ==>
              Visible(FilterUpdated(t, mode, filter, id), v, Some(id)) == Visible(t, v, Some(id))
    ensures !t[id].flags.isDummy && Some(id) != v ==>
              (Visible(FilterUpdated(t, mode, filter, id), v, Some(id))
               <==> v.Some? && HasParent(t, id, v.value)
                    && !(mode.hideHidden && t[id].flags.isHidden)
                    && !(mode.hideBinary && !t[id].flags.isText && !t[id].flags.isDir)
                    && (filter.None? || filter.value(t[id].(flags := t[id].flags.(isFiltered := false)))))
  {
    var t2 := FilterUpdated(t, mode, filter, id);
    SameShapeTreeOk(t, t2);
    if v.Some? {
      HasParentFrame(t, t2, id, v.value);
    }
  }

  // ---------------------------------------------------------------------
  // Sorting

  /** The order model_sort_default (lines 855-910) puts nodes in before it
      looks at names: dummies, then hidden directories, directories, hidden
      files and files. */
  function SortClass(n: Node): nat
  {
    if n.flags.isDummy then 0
    else if n.flags.isDir then (if n.flags.isHidden then 1 else 2)
    else if n.flags.isHidden then 3 else 4
  }

  /** model_sort_default (lines 855-910). `collate` stands for
      g_utf8_collate of the g_utf8_casefold of both names. The comparison
      orders by SortClass first; within a class dummies are equal, a node
      without a name comes first, and the collation of the names decides
      the rest. */
  function SortDefault(a: Node, b: Node, collate: (string, string) -> int): (r: int)
    ensures SortClass(a) < SortClass(b) ==> r < 0
    ensures SortClass(a) > SortClass(b) ==> r > 0
    ensures SortClass(a) == SortClass(b) ==>
              r == if a.flags.isDummy then 0
                   else if a.name.None? then -1
                   else if b.name.None? then 1
                   else collate(a.name.value, b.name.value)
  {
    if a.flags.isDummy && b.flags.isDummy then 0
    else if a.flags.isDummy then -1
    else if b.flags.isDummy then 1
    else if a.flags.isDir != b.flags.isDir then (if a.flags.isDir then -1 else 1)
    else if a.flags.isHidden != b.flags.isHidden then (if a.flags.isHidden then -1 else 1)
    else if a.name.None? then -1
    else if b.name.None? then 1
    else collate(a.name.value, b.name.value)
  }

  /** Swapping the nodes flips the sign of the comparison when collation is
      antisymmetric, unless neither node has a name: two nameless nodes of
      one class (not dummies) each compare below the other. */
  lemma SortDefaultAntisymmetric(a: Node, b: Node, collate: (string, string) -> int)
    requires forall x, y :: Sign(collate(x, y)) == -Sign(collate(y, x))
    ensures a.name.Some? || b.name.Some? || SortClass(a) != SortClass(b) || a.flags.isDummy ==>
              Sign(SortDefault(a, b, collate)) == -Sign(SortDefault(b, a, collate))
    ensures a.name.None? && b.name.None? && SortClass(a) == SortClass(b) && !a.flags.isDummy ==>
              SortDefault(a, b, collate) == -1 && SortDefault(b, a, collate) == -1
  {
  }

  function Sign(x: int): int
  {
    if x < 0 then -1 else if x > 0 then 1 else 0
  }

  // ---------------------------------------------------------------------
  // New names

  /** The name unique_new_name (lines 2152-2174) tries in round `num`:
      the name itself, then the name followed by the number in
      parentheses. */
  function Candidate(name: string, num: nat): string
  {
    if num == 0 then name else name + "(" + GeditSearchEntry.DecimalString(num) + ")"
  }

  /** Different rounds try different names. */
  lemma CandidateInjective(name: string, i: nat, j: nat)
    requires Candidate(name, i) == Candidate(name, j)
    ensures i == j
  {
    if i != 0 && j != 0 {
      var di := GeditSearchEntry.DecimalString(i);
      var dj := GeditSearchEntry.DecimalString(j);
      var ci := Candidate(name, i);
      assert ci[|name| + 1..|ci| - 1] == di;
      assert ci[|name| + 1..|ci| - 1] == dj;
      GeditSearchEntry.DecimalStringValue(i);
      GeditSearchEntry.DecimalStringValue(j);
    }
  }

  /** unique_new_name (lines 2152-2174): the first of `name`, `name(1)`,
      `name(2)`, ... that is not among the names `existing` in the
      directory. */
  method UniqueNewName(existing: set<string>, name: string) returns (r: string, num: nat)
    ensures r == Candidate(name, num) && r !in existing
    ensures forall k :: 0 <= k < num ==> Candidate(name, k) in existing
  {
    num := 0;
    r := Candidate(name, 0);
    ghost var remaining := existing;
    while r in existing
      invariant r == Candidate(name, num)
      invariant forall k :: 0 <= k < num ==> Candidate(name, k) in existing
      invariant remaining <= existing
      invariant forall k :: 0 <= k < num ==> Candidate(name, k) !in remaining
      invariant forall x :: x in existing && x !in remaining ==> exists k :: 0 <= k < num && x == Candidate(name, k)
      invariant r in existing ==> r in remaining
      decreases |remaining|
    {
      remaining := remaining - {r};
      num := num + 1;
      r := Candidate(name, num);
      if r in existing && r !in remaining {
        var k :| 0 <= k < num - 1 + 1 && r == Candidate(name, k);
        CandidateInjective(name, k, num);
      }
    }
  }

  // ---------------------------------------------------------------------
  // The dummy child

  /** model_create_dummy_node (lines 1476-1489): a hidden dummy file named
      "(Empty)" without a URI. */
  function DummyNode(parentId: NodeId, parentDepth: nat, hidden: bool): (r: Node)
    ensures r.flags.isDummy && !r.flags.isDir && r.children == [] && r.uri == None
    ensures r.parent == Some(parentId) && r.depth == parentDepth + 1 && r.flags.isHidden == hidden
  {
    Node(None, Some("(Empty)"), Flags(false, hidden, false, false, false, true), Some(parentId), [], parentDepth + 1)
  }

  /** The node with its HIDDEN bit set to `h`. */
  function WithHidden(node: Node, h: bool): (r: Node)
    ensures r.flags.isHidden == h && r.(flags := r.flags.(isHidden := node.flags.isHidden)) == node
  {
    node.(flags := node.flags.(isHidden := h))
  }

  /** The node table with the HIDDEN bit of `d` set to `h`. */
  function HiddenSet(t: Tree, d: NodeId, h: bool): Tree
    requires d in t
  {
    t[d := WithHidden(t[d], h)]
  }

  /** A directory's dummy is hidden unless the directory is visible and
      none of `others`, its other children, is. */
  ghost function DummyHidden(t: Tree, v: Option<NodeId>, n: NodeId, others: seq<NodeId>): bool
    requires ParentsOk(t) && n in t && InTree(t, others)
  {
    !(Visible(t, v, Some(n)) && VisibleOf(t, v, others) == [])
  }

  /** The dummy-child invariant of a directory: its first child is a dummy,
      visible exactly when the directory is visible and has no other
      visible child. */
  ghost predicate DummyOk(t: Tree, v: Option<NodeId>, n: NodeId)
    requires TreeOk(t) && n in t
  {
    t[n].flags.isDir ==>
      && t[n].children != []
      && t[t[n].children[0]].flags.isDummy
      && (Visible(t, v, Some(t[n].children[0]))
          <==> Visible(t, v, Some(n)) && VisibleOf(t, v, t[n].children[1..]) == [])
  }

  /** The node table after model_check_dummy (lines 1507-1577) on `n`: a
      file is left alone; a directory whose first child is a dummy has that
      dummy's HIDDEN bit recomputed; any other directory gets a new dummy
      `newId` in front of its children. */
  ghost function CheckedDummy(t: Tree, v: Option<NodeId>, n: NodeId, newId: NodeId): Tree
    requires TreeOk(t) && n in t
  {
    if !t[n].flags.isDir then t
    else if t[n].children != [] && t[t[n].children[0]].flags.isDummy then
      var d := t[n].children[0];
      ChildrenInTree(t, n);
      InTreeSlices(t, t[n].children, 0);
      HiddenSet(t, d, DummyHidden(t, v, n, t[n].children[1..]))
    else
      ChildrenInTree(t, n);
      Prepended(t, n, newId, DummyHidden(t, v, n, t[n].children))
  }

  ghost predicate Unchanged(t1: Tree, t2: Tree, except: set<NodeId>)
  {
    forall id :: id in t1 && id !in except ==> id in t2 && t2[id] == t1[id]
  }

  /** Setting the HIDDEN bit of a node keeps the shape of the tree. */
  lemma SetHiddenShape(t: Tree, d: NodeId, h: bool)
    requires TreeOk(t) && d in t
    ensures TreeOk(HiddenSet(t, d, h)) && SameLinks(t, HiddenSet(t, d, h))
    ensures Unchanged(t, HiddenSet(t, d, h), {d})
  {
    SameShapeTreeOk(t, HiddenSet(t, d, h));
  }

  /** Whether the first child of `n` is a dummy. */
  ghost predicate FirstIsDummy(t: Tree, n: NodeId)
    requires n in t
  {
    t[n].children != [] && t[n].children[0] in t && t[t[n].children[0]].flags.isDummy
  }

  /** The node table with a new dummy `newId`, hidden when `h`, in front
      of the children of `n`. */
  function Prepended(t: Tree, n: NodeId, newId: NodeId, h: bool): Tree
    requires n in t
  {
    t[n := t[n].(children := [newId] + t[n].children)][newId := DummyNode(n, t[n].depth, h)]
  }

  /** Putting a new dummy in front of a directory's children keeps the
      shape of the tree when the directory has no dummy yet. */
  lemma PrependDummyShape(t: Tree, n: NodeId, newId: NodeId, h: bool)
    requires TreeOk(t) && n in t && newId !in t && t[n].flags.isDir && !FirstIsDummy(t, n)
    ensures TreeOk(Prepended(t, n, newId, h))
    ensures SameLinks(t, Prepended(t, n, newId, h))
    ensures Unchanged(t, Prepended(t, n, newId, h), {n})
  {
    var t2 := Prepended(t, n, newId, h);
    PrependParentsOk(t, n, newId, h);
    PrependChildLinks(t, n, newId, h);
    PrependDistinct(t, n, newId, h);
    PrependLeaves(t, n, newId, h);
    PrependDummies(t, n, newId, h);
    PrependLater(t, n, newId, h);
  }

  lemma PrependParentsOk(t: Tree, n: NodeId, newId: NodeId, h: bool)
    requires ParentsOk(t) && n in t && newId !in t && t[n].flags.isDir
    ensures ParentsOk(Prepended(t, n, newId, h))
  {
    var t2 := Prepended(t, n, newId, h);
    forall id | id in t2
      ensures match t2[id].parent
              case None => t2[id].depth == 0
              case Some(p) => p in t2 && t2[p].depth + 1 == t2[id].depth && t2[p].flags.isDir && id in t2[p].children
    {
      if id != newId {
        assert t2[id].parent == t[id].parent;
        if t[id].parent.Some? {
          var p := t[id].parent.value;
          assert id in t[p].children;
          assert id in t2[p].children by {
            if p == n {
              assert t2[p].children == [newId] + t[n].children;
            }
          }
        }
      } else {
        assert t2[n].children[0] == newId;
      }
    }
  }

  lemma PrependChildLinks(t: Tree, n: NodeId, newId: NodeId, h: bool)
    requires ChildLinksOk(t) && n in t && newId !in t
    ensures ChildLinksOk(Prepended(t, n, newId, h))
  {
    var t2 := Prepended(t, n, newId, h);
    forall id, i | id in t2 && 0 <= i < |t2[id].children|
      ensures t2[id].children[i] in t2 && t2[t2[id].children[i]].parent == Some(id)
    {
      if id == n && i > 0 {
        assert t2[id].children[i] == t[n].children[i - 1];
      }
    }
  }

  lemma PrependDistinct(t: Tree, n: NodeId, newId: NodeId, h: bool)
    requires DistinctChildren(t) && ChildLinksOk(t) && n in t && newId !in t
    ensures DistinctChildren(Prepended(t, n, newId, h))
  {
    var cs := t[n].children;
    assert newId !in cs;
    var s := [newId] + cs;
    forall i, j | 0 <= i < j < |s|
      ensures s[i] != s[j]
    {
      if i > 0 {
        assert s[i] == cs[i - 1] && s[j] == cs[j - 1];
      } else {
        assert s[j] == cs[j - 1];
      }
    }
  }

  lemma PrependLeaves(t: Tree, n: NodeId, newId: NodeId, h: bool)
    requires FilesAreLeaves(t) && n in t && newId !in t && t[n].flags.isDir
    ensures FilesAreLeaves(Prepended(t, n, newId, h))
  {
  }

  lemma PrependDummies(t: Tree, n: NodeId, newId: NodeId, h: bool)
    requires DummiesFirst(t) && ChildLinksOk(t) && n in t && newId !in t
    requires t[n].children == [] || !t[t[n].children[0]].flags.isDummy
    ensures DummiesFirst(Prepended(t, n, newId, h))
  {
    var t2 := Prepended(t, n, newId, h);
    forall id | id in t2 && t2[id].flags.isDummy
      ensures !t2[id].flags.isDir && t2[id].parent.Some? && t2[id].parent.value in t2
              && t2[t2[id].parent.value].children != [] && t2[t2[id].parent.value].children[0] == id
    {
      if id != newId {
        assert t[id].flags.isDummy;
        var p := t[id].parent.value;
        assert p != n;
      }
    }
  }

  lemma PrependLater(t: Tree, n: NodeId, newId: NodeId, h: bool)
    requires LaterNotDummy(t) && ChildLinksOk(t) && n in t && newId !in t
    requires t[n].children == [] || !t[t[n].children[0]].flags.isDummy
    ensures LaterNotDummy(Prepended(t, n, newId, h))
  {
    var t2 := Prepended(t, n, newId, h);
    forall id, i | id in t2 && 0 < i < |t2[id].children| && t2[id].children[i] in t2
      ensures !t2[t2[id].children[i]].flags.isDummy
    {
      if id == n {
        var c := t[n].children[i - 1];
        assert t2[id].children[i] == c;
        assert c in t[n].children;
        if i - 1 > 0 {
          assert !t[c].flags.isDummy;
        }
      } else {
        var c := t[id].children[i];
        assert c in t[id].children;
      }
    }
  }

  lemma TailOfPrepend(x: NodeId, s: seq<NodeId>)
    ensures ([x] + s)[1..] == s && ([x] + s)[0] == x
  {
  }

  /** model_check_dummy establishes the dummy-child invariant of the
      directory, keeps the shape of the tree and the directory's own
      visibility, and changes no node but the directory and its dummy. */
  lemma CheckedDummyOk(t: Tree, v: Option<NodeId>, n: NodeId, newId: NodeId)
    requires TreeOk(t) && n in t && newId !in t
    ensures TreeOk(CheckedDummy(t, v, n, newId)) && n in CheckedDummy(t, v, n, newId)
    ensures SameLinks(t, CheckedDummy(t, v, n, newId)) && CheckedDummy(t, v, n, newId).Keys <= t.Keys + {newId}
    ensures DummyOk(CheckedDummy(t, v, n, newId), v, n)
    ensures Visible(CheckedDummy(t, v, n, newId), v, Some(n)) == Visible(t, v, Some(n))
    ensures Unchanged(t, CheckedDummy(t, v, n, newId), {n} + (if t[n].children != [] then {t[n].children[0]} else {}))
  {
    if t[n].flags.isDir {
      ChildrenInTree(t, n);
      if t[n].children != [] && t[t[n].children[0]].flags.isDummy {
        CheckedExistingDummy(t, v, n, newId, CheckedDummy(t, v, n, newId));
      } else {
        CheckedNewDummy(t, v, n, newId, CheckedDummy(t, v, n, newId));
      }
    }
  }

  /** CheckedDummyOk for a directory whose first child is a dummy: only the
      dummy's HIDDEN bit is set. */
  lemma CheckedExistingDummy(t: Tree, v: Option<NodeId>, n: NodeId, newId: NodeId, r: Tree)
    requires TreeOk(t) && n in t && t[n].flags.isDir && t[n].children != [] && t[n].children[0] in t
    requires t[t[n].children[0]].flags.isDummy
    requires InTree(t, t[n].children[1..]) && r == HiddenSet(t, t[n].children[0], DummyHidden(t, v, n, t[n].children[1..]))
    ensures TreeOk(r) && n in r
    ensures SameLinks(t, r) && r.Keys <= t.Keys + {newId}
    ensures DummyOk(r, v, n)
    ensures Visible(r, v, Some(n)) == Visible(t, v, Some(n))
    ensures Unchanged(t, r, {n} + (if t[n].children != [] then {t[n].children[0]} else {}))
  {
    var cs := t[n].children;
    var d := cs[0];
    ChildrenInTree(t, n);
    SetHiddenShape(t, d, DummyHidden(t, v, n, cs[1..]));
    assert d != n;
    VisibleFrame(t, r, v, n);
    assert d !in cs[1..] by {
      forall i | 0 <= i < |cs| - 1 ensures cs[1..][i] != d {
        assert cs[1..][i] == cs[i + 1];
      }
    }
    VisibleOfLinksFrame(t, r, v, cs[1..]);
    assert Unchanged(t, r, {d});
  }

  /** CheckedDummyOk for a directory whose first child is not a dummy: a
      dummy is put in front of its children. */
  lemma CheckedNewDummy(t: Tree, v: Option<NodeId>, n: NodeId, newId: NodeId, r: Tree)
    requires TreeOk(t) && n in t && newId !in t && t[n].flags.isDir
    requires t[n].children == [] || !t[t[n].children[0]].flags.isDummy
    requires InTree(t, t[n].children) && r == Prepended(t, n, newId, DummyHidden(t, v, n, t[n].children))
    ensures TreeOk(r) && n in r
    ensures SameLinks(t, r) && r.Keys <= t.Keys + {newId}
    ensures DummyOk(r, v, n)
    ensures Visible(r, v, Some(n)) == Visible(t, v, Some(n))
    ensures Unchanged(t, r, {n} + (if t[n].children != [] then {t[n].children[0]} else {}))
  {
    var cs := t[n].children;
    var h := DummyHidden(t, v, n, cs);
    PrependDummyShape(t, n, newId, h);
    VisibleFrame(t, r, v, n);
    TailOfPrepend(newId, cs);
    assert newId !in cs;
    VisibleOfLinksFrame(t, r, v, cs);
    assert Unchanged(t, r, {n});
  }

  /** Setting the HIDDEN bit of a node twice leaves the second value. */
  lemma HiddenSetTwice(t: Tree, d: NodeId, a: bool, b: bool)
    requires d in t
    ensures HiddenSet(HiddenSet(t, d, a), d, b) == HiddenSet(t, d, b)
  {
  }

  /** With the dummy of `n` hidden, the visible children of `n` are the
      visible ones among its other children. */
  lemma HiddenDummyChildren(t: Tree, v: Option<NodeId>, n: NodeId)
    requires TreeOk(t) && n in t && t[n].flags.isDir && FirstIsDummy(t, n)
    ensures InTree(t, t[n].children[1..])
    ensures TreeOk(HiddenSet(t, t[n].children[0], true))
    ensures VisibleChildren(HiddenSet(t, t[n].children[0], true), v, n) == VisibleOf(t, v, t[n].children[1..])
  {
    var cs := t[n].children;
    var d := cs[0];
    ChildrenInTree(t, n);
    InTreeSlices(t, cs, 0);
    var t2 := HiddenSet(t, d, true);
    SetHiddenShape(t, d, true);
    assert d != n;
    assert t2[n].children == cs;
    assert d !in cs[1..] by {
      forall i | 0 <= i < |cs| - 1 ensures cs[1..][i] != d {
        assert cs[1..][i] == cs[i + 1];
      }
    }
    VisibleOfLinksFrame(t, t2, v, cs[1..]);
    assert !Visible(t2, v, Some(d));
  }

  /** After model_check_dummy has put a hidden dummy in front of a
      directory without one, the directory, the rest of its children and
      the result of the whole check are as before. */
  lemma PrependedHiddenDummy(t: Tree, v: Option<NodeId>, n: NodeId, newId: NodeId)
    requires TreeOk(t) && n in t && newId !in t && t[n].flags.isDir && !FirstIsDummy(t, n)
    ensures TreeOk(Prepended(t, n, newId, true)) && FirstIsDummy(Prepended(t, n, newId, true), n)
    ensures Prepended(t, n, newId, true)[n].children[0] == newId
    ensures InTree(t, t[n].children) && Prepended(t, n, newId, true)[n].children[1..] == t[n].children
    ensures Visible(Prepended(t, n, newId, true), v, Some(n)) == Visible(t, v, Some(n))
    ensures DummyHidden(Prepended(t, n, newId, true), v, n, t[n].children) == DummyHidden(t, v, n, t[n].children)
    ensures CheckedDummy(t, v, n, newId)
            == HiddenSet(Prepended(t, n, newId, true), newId, DummyHidden(t, v, n, t[n].children))
  {
    var cs := t[n].children;
    var t1 := Prepended(t, n, newId, true);
    ChildrenInTree(t, n);
    PrependDummyShape(t, n, newId, true);
    VisibleFrame(t, t1, v, n);
    TailOfPrepend(newId, cs);
    assert newId !in cs;
    VisibleOfLinksFrame(t, t1, v, cs);
    var x := DummyHidden(t, v, n, cs);
    assert HiddenSet(t1, newId, x) == Prepended(t, n, newId, x);
  }

  /** The invariant of the store: a well-formed tree whose only node
      without a parent is the root, a virtual root in the tree, and
      identifiers below the next one to hand out. */
  ghost predicate StoreOk(t: Tree, root: Option<NodeId>, vroot: Option<NodeId>, nextId: nat)
  {
    TreeOk(t) && RootsOk(t, root, vroot, nextId)
  }

  /** The part of the store invariant about the roots and the identifiers. */
  ghost predicate RootsOk(t: Tree, root: Option<NodeId>, vroot: Option<NodeId>, nextId: nat)
  {
    && (root.Some? ==> root.value in t && t[root.value].parent.None?)
    && (vroot.Some? ==> vroot.value in t)
    && (forall id :: id in t ==> id < nextId)
    && (forall id {:trigger t[id].parent} :: id in t && t[id].parent.None? ==> Some(id) == root)
  }

  /** A new dummy keeps the store invariant. */
  lemma StoreOkNewDummy(t: Tree, root: Option<NodeId>, vroot: Option<NodeId>, nextId: nat, n: NodeId, h: bool,
                        t2: Tree, nextId2: nat)
    requires StoreOk(t, root, vroot, nextId) && n in t && t[n].flags.isDir && !FirstIsDummy(t, n)
    requires t2 == Prepended(t, n, nextId, h) && nextId2 == nextId + 1
    ensures StoreOk(t2, root, vroot, nextId2)
  {
    PrependDummyShape(t, n, nextId, h);
    PrependedNodes(t, n, nextId, h);
    RootsOkStep(t, t2, root, vroot, nextId, nextId2);
  }

  /** The nodes of Prepended are the old ones and the dummy, which has a
      parent. */
  lemma PrependedNodes(t: Tree, n: NodeId, newId: NodeId, h: bool)
    requires n in t
    ensures forall id :: id in Prepended(t, n, newId, h) ==>
              id in t || (id == newId && Prepended(t, n, newId, h)[id].parent.Some?)
  {
  }

  /** A change that keeps the links of the old nodes, and only adds nodes
      with parents below the new next identifier, keeps the part of the
      store invariant about the roots. */
  lemma RootsOkStep(t: Tree, t2: Tree, root: Option<NodeId>, vroot: Option<NodeId>, n1: nat, n2: nat)
    requires RootsOk(t, root, vroot, n1) && SameLinks(t, t2) && n1 <= n2
    requires forall id :: id in t2 ==> id in t || (id < n2 && t2[id].parent.Some?)
    ensures RootsOk(t2, root, vroot, n2)
  {
  }

  /** The store: its node table, the real root, the virtual root shown as
      the top of the model, and the filter settings. Only the virtual root
      matters to the GtkTreeModel queries. */
  class FileBrowserStore {
    var nodes: Tree
    var root: Option<NodeId>
    var virtualRoot: Option<NodeId>
    var filterMode: FilterMode
    var filterFunc: Option<FilterFunc>
    /** The identifier the next created node receives. */
    var nextId: nat

    ghost predicate Valid()
      reads this
    {
      StoreOk(nodes, root, virtualRoot, nextId)
    }

    /** gedit_file_browser_store_init (lines 345-364): no nodes yet, and the
        default filter mode hides hidden files. */
    constructor ()
      ensures Valid()
      ensures nodes == map[] && root == None && virtualRoot == None
      ensures filterMode == DefaultFilterMode && filterFunc == None
    {
      nodes := map[];
      root := None;
      virtualRoot := None;
      filterMode := DefaultFilterMode;
      filterFunc := None;
      nextId := 0;
    }

    /** Sets the HIDDEN bit of a node. */
    method SetHidden(d: NodeId, h: bool)
      requires Valid() && d in nodes
      modifies this`nodes
      ensures Valid()
      ensures nodes == HiddenSet(old(nodes), d, h)
    {
      ghost var t0 := nodes;
      nodes := HiddenSet(nodes, d, h);
      assert nodes == HiddenSet(t0, d, h);
      SetHiddenShape(t0, d, h);
      RootsOkStep(t0, nodes, root, virtualRoot, nextId, nextId);
    }

    /** model_node_update_visibility (lines 830-853) with the store's
        filter mode and filter function. */
    method UpdateVisibility(id: NodeId)
      requires Valid() && id in nodes
      modifies this`nodes
      ensures Valid()
      ensures nodes == FilterUpdated(old(nodes), filterMode, filterFunc, id)
    {
      ghost var t0 := nodes;
      nodes := nodes[id := UpdatedNode(filterMode, filterFunc, nodes[id])];
      assert nodes == FilterUpdated(t0, filterMode, filterFunc, id);
      VisibleAfterUpdate(t0, virtualRoot, filterMode, filterFunc, id);
      RootsOkStep(t0, nodes, root, virtualRoot, nextId, nextId);
    }

    /** model_create_dummy_node (lines 1476-1489) followed by putting the
        dummy in front of the directory's children. */
    method NewDummy(n: NodeId, hidden: bool) returns (d: NodeId)
      requires Valid() && n in nodes && nodes[n].flags.isDir && !FirstIsDummy(nodes, n)
      modifies this`nodes, this`nextId
      ensures Valid()
      ensures d == old(nextId) && nextId == d + 1
      ensures nodes == Prepended(old(nodes), n, d, hidden)
    {
      ghost var t0 := nodes;
      d := nextId;
      nodes := Prepended(nodes, n, d, hidden);
      assert nodes == Prepended(t0, n, d, hidden);
      nextId := nextId + 1;
      StoreOkNewDummy(t0, root, virtualRoot, d, n, hidden, nodes, nextId);
    }

    /** model_check_dummy (lines 1507-1577). A directory without children
        gets its dummy from model_add_dummy_node (lines 1491-1505), hidden
        unless the directory is visible; the checks model_add_node runs
        after that recompute the same bit and leave the dummy file alone.
        Otherwise a dummy is put in front when the first child is not one,
        and the dummy is shown only when the directory is visible and has no
        other visible child, found by hiding the dummy and asking
        HasChildReal. Row signals are not modelled. */
    method CheckDummy(n: NodeId)
      requires Valid() && n in nodes
      modifies this`nodes, this`nextId
      ensures Valid()
      ensures nodes == CheckedDummy(old(nodes), virtualRoot, n, old(nextId))
      ensures nextId >= old(nextId)
    {
      if !nodes[n].flags.isDir {
        return;
      }
      ghost var t0 := nodes;
      ChildrenInTree(nodes, n);
      var cs := nodes[n].children;
      if cs == [] {
        var shown := Visible(nodes, virtualRoot, Some(n));
        var d := NewDummy(n, !shown);
        return;
      }
      var d := cs[0];
      if !nodes[d].flags.isDummy {
        PrependedHiddenDummy(nodes, virtualRoot, n, nextId);
        d := NewDummy(n, true);
      }
      assert CheckedDummy(t0, virtualRoot, n, old(nextId))
             == HiddenSet(nodes, d, DummyHidden(nodes, virtualRoot, n, nodes[n].children[1..]));
      UpdateDummy(n, d);
    }

    /** The end of model_check_dummy (lines 1532-1575): the dummy `d` in
        front of the children of `n` is hidden when `n` is not visible;
        otherwise it is hidden while HasChildReal looks for another
        visible child, and shown when there is none. */
    method UpdateDummy(n: NodeId, d: NodeId)
      requires Valid() && n in nodes && nodes[n].flags.isDir && FirstIsDummy(nodes, n) && d == nodes[n].children[0]
      modifies this`nodes
      ensures Valid() && InTree(old(nodes), old(nodes)[n].children[1..])
      ensures nodes == HiddenSet(old(nodes), d, DummyHidden(old(nodes), virtualRoot, n, old(nodes)[n].children[1..]))
    {
      ghost var t1 := nodes;
      HiddenDummyChildren(nodes, virtualRoot, n);
      if !Visible(nodes, virtualRoot, Some(n)) {
        SetHidden(d, true);
        return;
      }
      SetHidden(d, true);
      var hasChild := HasChildReal(n);
      if !hasChild {
        HiddenSetTwice(t1, d, true, false);
        SetHidden(d, false);
      }
    }

    /** The node the virtual root stands for when an iterator is NULL. */
    function NodeOrVirtualRoot(iter: Option<NodeId>): Option<NodeId>
      reads this
    {
      if iter.None? then virtualRoot else iter
    }

    /** The scan for the `k`-th visible node of a list, which get_iter and
        iter_nth_child share. */
    method NthVisible(cs: seq<NodeId>, k: int) returns (r: Option<NodeId>)
      requires Valid() && InTree(nodes, cs)
      ensures r == ChildAt(VisibleOf(nodes, virtualRoot, cs), k)
    {
      var num := 0;
      var j := 0;
      while j < |cs|
        invariant 0 <= j <= |cs|
        invariant num == |VisibleOf(nodes, virtualRoot, cs[..j])|
        invariant k < 0 || num <= k
      {
        VisibleOfSnoc(nodes, virtualRoot, cs, j);
        if Visible(nodes, virtualRoot, Some(cs[j])) {
          if num == k {
            VisibleOfSplit(nodes, virtualRoot, cs, j);
            return Some(cs[j]);
          }
          num := num + 1;
        }
        j := j + 1;
      }
      assert cs[..j] == cs;
      return None;
    }

    /** The scan for the first visible node of a list. */
    method FirstVisible(cs: seq<NodeId>) returns (r: Option<NodeId>)
      requires Valid() && InTree(nodes, cs)
      ensures r == Head(VisibleOf(nodes, virtualRoot, cs))
    {
      var j := 0;
      while j < |cs|
        invariant 0 <= j <= |cs|
        invariant VisibleOf(nodes, virtualRoot, cs[..j]) == []
      {
        VisibleOfSnoc(nodes, virtualRoot, cs, j);
        if Visible(nodes, virtualRoot, Some(cs[j])) {
          VisibleOfSplit(nodes, virtualRoot, cs, j);
          return Some(cs[j]);
        }
        j := j + 1;
      }
      assert cs[..j] == cs;
      return None;
    }

    /** gedit_file_browser_store_get_iter (lines 435-488): walks down from
        the virtual root, one visible child per index. */
    method GetIter(path: seq<int>) returns (r: Option<NodeId>)
      requires Valid()
      ensures r == NodeAt(nodes, virtualRoot, path)
    {
      var node := virtualRoot;
      var i := 0;
      while i < |path|
        invariant 0 <= i <= |path|
        invariant node == NodeAt(nodes, virtualRoot, path[..i])
      {
        if node.None? {
          NodeAtPrefixNone(nodes, virtualRoot, path, i);
          return None;
        }
        var n := node.value;
        NodeAtSnoc(nodes, virtualRoot, path, i);
        if !nodes[n].flags.isDir {
          NodeAtPrefixNone(nodes, virtualRoot, path, i + 1);
          return None;
        }
        ChildrenInTree(nodes, n);
        var found := NthVisible(nodes[n].children, path[i]);
        if found.None? {
          NodeAtPrefixNone(nodes, virtualRoot, path, i + 1);
          return None;
        }
        node := found;
        i := i + 1;
      }
      assert path[..i] == path;
      return node;
    }

    /** The scan of get_path_real over a parent's children: the number of
        visible children before `x` when `x` is visible, none otherwise. */
    method VisiblePlace(cs: seq<NodeId>, x: NodeId) returns (r: Option<nat>)
      requires Valid() && InTree(nodes, cs) && x in cs
      ensures r == if Visible(nodes, virtualRoot, Some(x))
                   then Some(IndexOf(VisibleOf(nodes, virtualRoot, cs), x)) else None
    {
      var num := 0;
      var j := 0;
      while cs[j] != x
        invariant 0 <= j <= IndexOf(cs, x)
        invariant num == |VisibleOf(nodes, virtualRoot, cs[..j])|
        decreases IndexOf(cs, x) - j
      {
        VisibleOfSnoc(nodes, virtualRoot, cs, j);
        if Visible(nodes, virtualRoot, Some(cs[j])) {
          num := num + 1;
        }
        j := j + 1;
      }
      assert j == IndexOf(cs, x);
      if Visible(nodes, virtualRoot, Some(x)) {
        PlaceOfVisible(nodes, virtualRoot, cs, j);
        return Some(num);
      }
      return None;
    }

    /** gedit_file_browser_store_get_path_real (lines 490-532): walks up
        to the virtual root, prepending the node's place among the visible
        children of its parent. */
    method GetPath(n: NodeId) returns (r: Option<seq<int>>)
      requires Valid() && n in nodes
      ensures r == PathOf(nodes, virtualRoot, n)
    {
      var node := n;
      var path: seq<int> := [];
      ExtendNil(PathOf(nodes, virtualRoot, n));
      while Some(node) != virtualRoot
        invariant node in nodes
        invariant PathOf(nodes, virtualRoot, n) == Extend(PathOf(nodes, virtualRoot, node), path)
        decreases nodes[node].depth
      {
        if nodes[node].parent.None? {
          return None;
        }
        var p := nodes[node].parent.value;
        ChildrenInTree(nodes, p);
        PathOfUp(nodes, virtualRoot, node);
        var place := VisiblePlace(nodes[p].children, node);
        if place.None? {
          return None;
        }
        ExtendAssoc(PathOf(nodes, virtualRoot, p), place.value, path);
        path := [place.value] + path;
        node := p;
      }
      ExtendEmpty(path);
      return Some(path);
    }

    /** gedit_file_browser_store_iter_next (lines 596-627): the first
        visible node after `n` among its parent's children. */
    method IterNext(n: NodeId) returns (r: Option<NodeId>)
      requires Valid() && n in nodes
      ensures nodes[n].parent.None? ==> r == None
      ensures nodes[n].parent.Some? ==>
                && nodes[n].parent.value in nodes && InTree(nodes, nodes[nodes[n].parent.value].children)
                && n in nodes[nodes[n].parent.value].children
                && r == Head(VisibleAfter(nodes, virtualRoot, nodes[nodes[n].parent.value].children, n))
    {
      if nodes[n].parent.None? {
        return None;
      }
      var p := nodes[n].parent.value;
      ChildrenInTree(nodes, p);
      var cs := nodes[p].children;
      var j := IndexOf(cs, n);
      InTreeSlices(nodes, cs, j);
      r := FirstVisible(cs[j + 1..]);
    }

    /** gedit_file_browser_store_iter_children (lines 629-666): the first
        visible child of the node, or of the virtual root for a NULL
        parent. */
    method IterChildren(parent: Option<NodeId>) returns (r: Option<NodeId>)
      requires Valid() && (parent.Some? ==> parent.value in nodes)
      ensures NodeOrVirtualRoot(parent).None? ==> r == None
      ensures NodeOrVirtualRoot(parent).Some? ==>
                r == ChildAt(VisibleChildren(nodes, virtualRoot, NodeOrVirtualRoot(parent).value), 0)
    {
      var node := NodeOrVirtualRoot(parent);
      if node.None? {
        return None;
      }
      if !nodes[node.value].flags.isDir {
        return None;
      }
      ChildrenInTree(nodes, node.value);
      r := FirstVisible(nodes[node.value].children);
    }

    /** filter_tree_model_iter_has_child_real (lines 668-684): whether a
        directory has a visible child. */
    method HasChildReal(n: NodeId) returns (b: bool)
      requires Valid() && n in nodes
      ensures b <==> VisibleChildren(nodes, virtualRoot, n) != []
    {
      if !nodes[n].flags.isDir {
        return false;
      }
      ChildrenInTree(nodes, n);
      var first := FirstVisible(nodes[n].children);
      return first.Some?;
    }

    /** gedit_file_browser_store_iter_has_child (lines 686-706); a NULL
        iterator with no virtual root would be dereferenced, so the node
        must exist. */
    method IterHasChild(iter: Option<NodeId>) returns (b: bool)
      requires Valid() && (iter.Some? ==> iter.value in nodes)
      requires NodeOrVirtualRoot(iter).Some?
      ensures b <==> VisibleChildren(nodes, virtualRoot, NodeOrVirtualRoot(iter).value) != []
    {
      b := HasChildReal(NodeOrVirtualRoot(iter).value);
    }

    /** gedit_file_browser_store_iter_n_children (lines 708-739). */
    method IterNChildren(iter: Option<NodeId>) returns (num: int)
      requires Valid() && (iter.Some? ==> iter.value in nodes)
      requires NodeOrVirtualRoot(iter).Some?
      ensures num == |VisibleChildren(nodes, virtualRoot, NodeOrVirtualRoot(iter).value)|
    {
      var node := NodeOrVirtualRoot(iter).value;
      if !nodes[node].flags.isDir {
        return 0;
      }
      ChildrenInTree(nodes, node);
      num := CountVisible(nodes[node].children);
    }

    /** The counting loop of iter_n_children. */
    method CountVisible(cs: seq<NodeId>) returns (num: int)
      requires Valid() && InTree(nodes, cs)
      ensures num == |VisibleOf(nodes, virtualRoot, cs)|
    {
      num := 0;
      var j := 0;
      while j < |cs|
        invariant 0 <= j <= |cs|
        invariant num == |VisibleOf(nodes, virtualRoot, cs[..j])|
      {
        VisibleOfSnoc(nodes, virtualRoot, cs, j);
        if Visible(nodes, virtualRoot, Some(cs[j])) {
          num := num + 1;
        }
        j := j + 1;
      }
      assert cs[..j] == cs;
    }

    /** gedit_file_browser_store_iter_nth_child (lines 741-780). */
    method IterNthChild(parent: Option<NodeId>, n: int) returns (r: Option<NodeId>)
      requires Valid() && (parent.Some? ==> parent.value in nodes)
      requires NodeOrVirtualRoot(parent).Some?
      ensures r == ChildAt(VisibleChildren(nodes, virtualRoot, NodeOrVirtualRoot(parent).value), n)
    {
      var node := NodeOrVirtualRoot(parent).value;
      if !nodes[node].flags.isDir {
        return None;
      }
      ChildrenInTree(nodes, node);
      r := NthVisible(nodes[node].children, n);
    }

    /** gedit_file_browser_store_iter_parent (lines 782-805): the parent of
        a node that lies under the virtual root. */
    method IterParent(child: NodeId) returns (r: Option<NodeId>)
      requires Valid() && child in nodes
      ensures r.Some? <==> virtualRoot.Some? && HasParent(nodes, child, virtualRoot.value)
      ensures r.Some? ==> r == nodes[child].parent
    {
      if virtualRoot.None? || !HasParent(nodes, child, virtualRoot.value) {
        return None;
      }
      return nodes[child].parent;
    }
  }
}
