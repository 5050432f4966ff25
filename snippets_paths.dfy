// The path arithmetic of the snippets plugin's drop handler
// (plugins/snippets/snippets/Document.py, path_split and
// relative_filename), over the POSIX flavour of Python's os.path.

module SnippetsPaths {
  import opened Common

  /** One past the last '/' of `p`, or 0 when there is none
      (`p.rfind('/') + 1`). */
  function SlashEnd(p: string): (i: nat)
    ensures i <= |p|
    ensures i > 0 ==> p[i - 1] == '/'
    ensures forall k :: i <= k < |p| ==> p[k] != '/'
  {
    if p == [] then 0
    else if p[|p| - 1] == '/' then |p|
    else SlashEnd(p[..|p| - 1])
  }

  predicate AllSlashes(s: string)
  {
    forall k :: 0 <= k < |s| ==> s[k] == '/'
  }

  /** `s.rstrip('/')`. */
  function RStripSlashes(s: string): (r: string)
    ensures IsPrefix(r, s) && AllSlashes(s[|r|..])
    ensures r == [] || r[|r| - 1] != '/'
  {
    if s != [] && s[|s| - 1] == '/' then RStripSlashes(s[..|s| - 1]) else s
  }

  /** The head os.path.split returns: `p` up to its last '/', with the
      trailing slashes removed unless it is made of slashes only. */
  function SplitHead(p: string): (h: string)
    ensures |h| <= SlashEnd(p)
  {
    var head := p[..SlashEnd(p)];
    if head != [] && !AllSlashes(head) then RStripSlashes(head) else head
  }

  /** The tail os.path.split returns: what follows the last '/'. */
  function SplitTail(p: string): string
  {
    p[SlashEnd(p)..]
  }

  /** os.path.split: the head and the tail. */
  function Split(p: string): (ht: (string, string))
    ensures ht.1 == p[SlashEnd(p)..]
    ensures |ht.0| + |ht.1| <= |p|
  {
    (SplitHead(p), SplitTail(p))
  }

  /** os.path.basename. */
  function Basename(p: string): (r: string)
    ensures forall k :: 0 <= k < |r| ==> r[k] != '/'
    ensures |r| <= |p| && r == p[|p| - |r|..]
  {
    Split(p).1
  }

  /** path_split (Document.py lines 739-747): the components of `path`
      followed by `components`; a path that ends in '/' yields its whole
      slash-stripped head as one component. */
  function PathSplit(path: string, components: seq<string>): seq<string>
    decreases |path|
  {
    var head, tail := SplitHead(path), SplitTail(path);
    if tail == [] && head != [] then [head] + components
    else if tail != [] then PathSplit(head, [tail] + components)
    else components
  }

  /** os.path.join of two parts: an absolute second part replaces the
      first; otherwise a '/' is put between unless the first part is empty
      or already ends in one. */
  function JoinTwo(a: string, b: string): string
  {
    if b != [] && b[0] == '/' then b
    else if a == [] || a[|a| - 1] == '/' then a + b
    else a + "/" + b
  }

  /** os.path.join(*parts), a fold from the left. */
  function Join(parts: seq<string>): string
    requires parts != []
  {
    if |parts| == 1 then parts[0] else JoinTwo(Join(parts[..|parts| - 1]), parts[|parts| - 1])
  }

  /** A path component: non-empty and free of '/'. */
  predicate Component(c: string)
  {
    c != [] && forall k :: 0 <= k < |c| ==> c[k] != '/'
  }

  /** A relative path without empty components: no leading, trailing or
      doubled '/'. */
  predicate CleanPath(p: string)
  {
    && p != [] && p[0] != '/' && p[|p| - 1] != '/'
    && forall k :: 0 <= k < |p| - 1 ==> !(p[k] == '/' && p[k + 1] == '/')
  }

  lemma {:induction false} JoinCons(t: string, cs: seq<string>)
    requires Component(t) && cs != [] && forall i :: 0 <= i < |cs| ==> Component(cs[i])
    ensures Join([t] + cs) == t + "/" + Join(cs)
    decreases |cs|
  {
    var tcs := [t] + cs;
    if |cs| == 1 {
      assert tcs[..1] == [t];
      JoinTwoPlain(t, cs[0]);
    } else {
      var init, last := cs[..|cs| - 1], cs[|cs| - 1];
      assert tcs[..|tcs| - 1] == [t] + init && tcs[|tcs| - 1] == last;
      JoinCons(t, init);
      JoinStartsWithComponent(init);
      var j := Join(init);
      LastOfConcat(t + "/", j);
      JoinTwoPlain(t + "/" + j, last);
      JoinTwoPlain(j, last);
      ConcatAssoc(t + "/", j, "/" + last);
    }
  }

  /** Joining onto a path that does not end in '/' puts one in between. */
  lemma JoinTwoPlain(a: string, b: string)
    requires a != [] && a[|a| - 1] != '/' && Component(b)
    ensures JoinTwo(a, b) == a + "/" + b
  {
  }

  lemma LastOfConcat(a: string, b: string)
    requires b != []
    ensures (a + b)[|a + b| - 1] == b[|b| - 1]
  {
  }

  lemma {:induction false} JoinStartsWithComponent(cs: seq<string>)
    requires cs != [] && forall i :: 0 <= i < |cs| ==> Component(cs[i])
    ensures Join(cs) != [] && Join(cs)[|Join(cs)| - 1] != '/'
    decreases |cs|
  {
    if |cs| > 1 {
      JoinStartsWithComponent(cs[..|cs| - 1]);
    }
  }

  /** One step of path_split on a clean path: the last component moves
      to the front of those collected. */
  lemma PathSplitStep(p: string, cs: seq<string>)
    requires CleanPath(p)
    ensures SplitHead(p) == [] ==> PathSplit(p, cs) == [SplitTail(p)] + cs
    ensures SplitHead(p) != [] ==> PathSplit(p, cs) == PathSplit(SplitHead(p), [SplitTail(p)] + cs)
  {
    SplitClean(p);
    if SplitHead(p) == [] {
      PathSplitEmpty([SplitTail(p)] + cs);
    }
  }

  /** On a clean path, path_split yields components only. */
  lemma {:induction false} PathSplitComponents(p: string, cs: seq<string>)
    requires CleanPath(p) && forall i :: 0 <= i < |cs| ==> Component(cs[i])
    ensures PathSplit(p, cs) != []
    ensures forall i :: 0 <= i < |PathSplit(p, cs)| ==> Component(PathSplit(p, cs)[i])
    decreases |p|
  {
    var head, tail := SplitHead(p), SplitTail(p);
    var tcs := [tail] + cs;
    assert Component(tail) && (head != [] ==> CleanPath(head)) by { SplitClean(p); }
    assert forall i :: 0 <= i < |tcs| ==> Component(tcs[i]) by {
      forall i | 0 <= i < |tcs| ensures Component(tcs[i]) {
        if i > 0 { assert tcs[i] == cs[i - 1]; }
      }
    }
    if head != [] {
      assert PathSplit(p, cs) == PathSplit(head, tcs) by { PathSplitStep(p, cs); }
      PathSplitComponents(head, tcs);
    } else {
      assert PathSplit(p, cs) == tcs by { PathSplitStep(p, cs); }
    }
  }

  /** On a clean path, joining what path_split yields (followed by the
      components already collected) gives the path back. */
  lemma {:induction false} PathSplitJoin(p: string, cs: seq<string>)
    requires CleanPath(p) && forall i :: 0 <= i < |cs| ==> Component(cs[i])
    ensures PathSplit(p, cs) != []
    ensures Join(PathSplit(p, cs)) == if cs == [] then p else p + "/" + Join(cs)
    decreases |p|, 1
  {
    assert PathSplit(p, cs) != [] by { PathSplitComponents(p, cs); }
    var head, tail := SplitHead(p), SplitTail(p);
    var tcs := [tail] + cs;
    if head == [] {
      assert PathSplit(p, cs) == tcs && p == tail && Component(tail) by { SplitClean(p); PathSplitStep(p, cs); }
      if cs == [] { assert tcs == [tail]; } else { JoinCons(tail, cs); }
    } else {
      assert PathSplit(p, cs) == PathSplit(head, tcs) && p == head + "/" + tail by { SplitClean(p); PathSplitStep(p, cs); }
      assert CleanPath(head) && Component(tail) by { SplitClean(p); }
      PathSplitJoinAfter(head, tail, cs);
    }
  }

  /** The step of PathSplitJoin on a path with a head: the head is split
      with the tail in front of the components collected. */
  lemma {:induction false} PathSplitJoinAfter(head: string, tail: string, cs: seq<string>)
    requires CleanPath(head) && Component(tail) && forall i :: 0 <= i < |cs| ==> Component(cs[i])
    ensures PathSplit(head, [tail] + cs) != []
    ensures Join(PathSplit(head, [tail] + cs)) == if cs == [] then head + "/" + tail else head + "/" + tail + "/" + Join(cs)
    decreases |head|, 2
  {
    var tcs := [tail] + cs;
    assert forall i :: 0 <= i < |tcs| ==> Component(tcs[i]) by {
      forall i | 0 <= i < |tcs| ensures Component(tcs[i]) {
        if i > 0 { assert tcs[i] == cs[i - 1]; }
      }
    }
    PathSplitJoin(head, tcs);
    if cs == [] {
      assert tcs == [tail];
    } else {
      var j := Join(cs);
      JoinCons(tail, cs);
      calc {
        Join(PathSplit(head, tcs));
        (head + "/") + ((tail + "/") + j);
        { ConcatAssoc(head + "/", tail + "/", j); }
        ((head + "/") + (tail + "/")) + j;
        { ConcatAssoc(head + "/", tail, "/"); }
        (((head + "/") + tail) + "/") + j;
      }
    }
  }

  lemma PathSplitEmpty(cs: seq<string>)
    ensures PathSplit([], cs) == cs
  {
    assert SplitHead([]) == [] && SplitTail([]) == [];
  }

  /** os.path.split on a clean path: no head, or a clean head and one
      slash before the tail. */
  lemma SplitClean(p: string)
    requires CleanPath(p)
    ensures Component(SplitTail(p))
    ensures SplitHead(p) == [] ==> SplitTail(p) == p
    ensures SplitHead(p) != [] ==> CleanPath(SplitHead(p)) && p == SplitHead(p) + "/" + SplitTail(p)
  {
    var i := SlashEnd(p);
    var tail := p[i..];
    assert tail != [];
    if i == 0 {
      assert tail == p;
    } else {
      var head := p[..i - 1];
      assert p[..i] == head + "/";
      assert i >= 2 by { assert p[0] != '/'; }
      assert head[|head| - 1] == p[i - 2];
      assert !AllSlashes(p[..i]) by { assert p[..i][0] == p[0]; }
      assert RStripSlashes(p[..i]) == head;
      assert CleanPath(head) by {
        forall k | 0 <= k < |head| - 1 ensures !(head[k] == '/' && head[k + 1] == '/') {
          assert head[k] == p[k] && head[k + 1] == p[k + 1];
        }
      }
      assert p == head + "/" + tail;
    }
  }

  /** path_split keeps a trailing '/' path in one piece. */
  lemma PathSplitTrailingSlash()
    ensures PathSplit("home/user/", []) == ["home/user"]
  {
    assert SlashEnd("home/user/") == 10;
    assert "home/user/"[..10] == "home/user/";
    assert RStripSlashes("home/user/") == "home/user" by {
      assert "home/user/"[..9] == "home/user";
    }
    assert SplitHead("home/user/") == "home/user" && SplitTail("home/user/") == "";
  }

  /** The match of `(^[a-z]+:\/\/|\/)(.*)` at the start of a string: the
      first group is a lower-case scheme with "://", or a single '/'; the
      second runs to the first newline. */
  datatype Prefixed = Prefixed(scheme: string, rest: string)

  /** The length of the run of lower-case ASCII letters `s` starts with. */
  function LowerRun(s: string): (n: nat)
    ensures n <= |s|
    ensures forall k :: 0 <= k < n ==> 'a' <= s[k] <= 'z'
    ensures n < |s| ==> !('a' <= s[n] <= 'z')
  {
    if s != [] && 'a' <= s[0] <= 'z' then 1 + LowerRun(s[1..]) else 0
  }

  /** The longest prefix of `s` without a newline (Python's `.` stops at
      one). */
  function UpToNewline(s: string): (r: string)
    ensures IsPrefix(r, s) && '\n' !in r
    ensures |r| < |s| ==> s[|r|] == '\n'
  {
    if s == [] || s[0] == '\n' then [] else [s[0]] + UpToNewline(s[1..])
  }

  function MatchPrefix(s: string): (m: Option<Prefixed>)
    ensures m.Some? <==> (LowerRun(s) > 0 && IsPrefix("://", s[LowerRun(s)..])) || (s != [] && s[0] == '/')
    ensures m.Some? ==> IsPrefix(m.value.scheme, s) && IsPrefix(m.value.rest, s[|m.value.scheme|..])
  {
    var n := LowerRun(s);
    if n > 0 && IsPrefix("://", s[n..]) then Some(Prefixed(s[..n + 3], UpToNewline(s[n + 3..])))
    else if s != [] && s[0] == '/' then Some(Prefixed("/", UpToNewline(s[1..])))
    else None
  }

  /** The loop of relative_filename (lines 765-767) drops leading
      components from both lists as long as they agree: it drops the
      longest common prefix, whose length this is. */
  function CommonLength(p1: seq<string>, p2: seq<string>): (k: nat)
    ensures k <= |p1| && k <= |p2|
    ensures forall i :: 0 <= i < k ==> p1[i] == p2[i]
    ensures k == |p1| || k == |p2| || p1[k] != p2[k]
  {
    if p1 != [] && p2 != [] && p1[0] == p2[0] then
      var k := CommonLength(p1[1..], p2[1..]);
      assert forall i :: 0 < i <= k ==> p1[i] == p1[1..][i - 1] && p2[i] == p2[1..][i - 1];
      k + 1
    else 0
  }

  /** `'../' * n`, empty for n <= 0. */
  function Ups(n: int): (r: string)
    ensures |r| == 3 * Max(n, 0)
    decreases n
  {
    if n <= 0 then "" else "../" + Ups(n - 1)
  }

  predicate StartsWith(s: string, p: string)
  {
    IsPrefix(p, s)
  }

  /** relative_filename (Document.py lines 749-790): the name of `second`
      relative to the directory of `first`. */
  function Relative(first: string, second: string, mime: string): string
  {
    var m1 := MatchPrefix(first);
    var m2 := MatchPrefix(second);
    if m1.None? || m2.None? || m1.value.scheme != m2.value.scheme then second
    else
      var p1 := PathSplit(m1.value.rest, []);
      var p2 := PathSplit(m2.value.rest, []);
      var k := CommonLength(p1, p2);
      if |p1| - k - 1 > 3 then second else Climb(p1[k..], p2[k..], second, mime)
  }

  /** The tail of relative_filename (lines 774-790) once the common
      components are gone: climb one level fewer than what is left of the
      first path, then descend through what is left of the second. */
  function Climb(path1: seq<string>, path2: seq<string>, second: string, mime: string): string
  {
    var result :=
      if StartsWith(mime, "x-directory") then (if path2 == [] then "./" else Ups(|path1| - 1))
      else if path2 == [] then Basename(second)
      else Ups(|path1| - 1);
    if path2 != [] then result + Join(path2) else result
  }

  /** The path components of a name after its scheme. */
  function PathOf(name: string): seq<string>
    requires MatchPrefix(name).Some?
  {
    PathSplit(MatchPrefix(name).value.rest, [])
  }

  /** How many leading components the two names share. */
  function Shared(first: string, second: string): nat
    requires MatchPrefix(first).Some? && MatchPrefix(second).Some?
  {
    CommonLength(PathOf(first), PathOf(second))
  }

  /** With matching schemes and at most four components of `first` left
      after the shared ones, the result is the climb from what is left. */
  lemma RelativeIsClimb(first: string, second: string, mime: string)
    requires MatchPrefix(first).Some? && MatchPrefix(second).Some?
    requires MatchPrefix(first).value.scheme == MatchPrefix(second).value.scheme
    requires |PathOf(first)| - Shared(first, second) <= 4
    ensures Relative(first, second, mime)
      == Climb(PathOf(first)[Shared(first, second)..], PathOf(second)[Shared(first, second)..], second, mime)
  {
  }

  /** relative_filename as the loop that pops common components. */
  method RelativeFilename(first: string, second: string, mime: string) returns (result: string)
    ensures result == Relative(first, second, mime)
  {
    var m1 := MatchPrefix(first);
    var m2 := MatchPrefix(second);
    if m1.None? || m2.None? {
      return second;
    }
    if m1.value.scheme != m2.value.scheme {
      return second;
    }
    var path1 := PathSplit(m1.value.rest, []);
    var path2 := PathSplit(m2.value.rest, []);
    ghost var k := Shared(first, second);
    ghost var popped := 0;
    while path1 != [] && path2 != [] && path1[0] == path2[0]
      invariant popped <= k && path1 == PathOf(first)[popped..] && path2 == PathOf(second)[popped..]
      decreases |path1|
    {
      path1 := path1[1..];
      path2 := path2[1..];
      popped := popped + 1;
    }
    assert popped == k;
    if |path1| - 1 > 3 {
      RelativeUnchanged(first, second, mime);
      return second;
    }
    RelativeIsClimb(first, second, mime);
    result := ClimbLoop(path1, path2, second, mime);
  }

  /** The tail of relative_filename (lines 774-790) as written. */
  method ClimbLoop(path1: seq<string>, path2: seq<string>, second: string, mime: string) returns (result: string)
    ensures result == Climb(path1, path2, second, mime)
  {
    if StartsWith(mime, "x-directory") {
      if path2 == [] {
        result := "./";
      } else {
        result := Ups(|path1| - 1);
      }
    } else {
      result := Ups(|path1| - 1);
      if path2 == [] {
        result := Basename(second);
      }
    }
    if path2 != [] {
      result := result + Join(path2);
    }
  }

  /** `second` comes back unchanged when either name has no scheme and no
      leading '/', when the schemes differ, or when more than three levels
      up would be needed. */
  lemma RelativeUnchanged(first: string, second: string, mime: string)
    ensures || MatchPrefix(first).None? || MatchPrefix(second).None?
            || MatchPrefix(first).value.scheme != MatchPrefix(second).value.scheme
            || |PathOf(first)| - Shared(first, second) > 4
            ==> Relative(first, second, mime) == second
  {
  }

  /** What the climb gives: one level fewer than the components left of
      the first path, then what is left of the second; with nothing left of
      the second, its base name, or "./" for a directory. */
  lemma ClimbShape(path1: seq<string>, path2: seq<string>, second: string, mime: string)
    ensures path2 != [] ==> Climb(path1, path2, second, mime) == Ups(|path1| - 1) + Join(path2)
    ensures path2 == [] && StartsWith(mime, "x-directory") ==> Climb(path1, path2, second, mime) == "./"
    ensures path2 == [] && !StartsWith(mime, "x-directory") ==> Climb(path1, path2, second, mime) == Basename(second)
  {
  }

  /** Otherwise the result climbs one level fewer than the components left
      of `first` and then descends through what is left of `second`; with
      nothing left of `second` it is its base name, or "./" for a
      directory. */
  lemma RelativeShape(first: string, second: string, mime: string)
    requires MatchPrefix(first).Some? && MatchPrefix(second).Some?
    requires MatchPrefix(first).value.scheme == MatchPrefix(second).value.scheme
    requires |PathOf(first)| - Shared(first, second) <= 4
    ensures Shared(first, second) < |PathOf(second)| ==>
      Relative(first, second, mime) == Ups(|PathOf(first)| - Shared(first, second) - 1) + Join(PathOf(second)[Shared(first, second)..])
    ensures Shared(first, second) == |PathOf(second)| && StartsWith(mime, "x-directory") ==>
      Relative(first, second, mime) == "./"
    ensures Shared(first, second) == |PathOf(second)| && !StartsWith(mime, "x-directory") ==>
      Relative(first, second, mime) == Basename(second)
  {
    var p1, p2, k := PathOf(first), PathOf(second), Shared(first, second);
    RelativeIsClimb(first, second, mime);
    ClimbShape(p1[k..], p2[k..], second, mime);
    assert |p2[k..]| == |p2| - k && |p1[k..]| == |p1| - k;
  }

  /** A file in a sibling directory is one level up, then down into the
      sibling, whatever the mime type. */
  lemma RelativeSibling(home: string, a: string, x: string, b: string, y: string, mime: string)
    requires Component(home) && Component(a) && Component(x) && Component(b) && Component(y)
    requires '\n' !in home + a + x + b + y && a != b
    ensures Relative("/" + (home + "/" + a + "/" + x), "/" + (home + "/" + b + "/" + y), mime) == "../" + (b + "/" + y)
  {
    var r1, r2 := home + "/" + a + "/" + x, home + "/" + b + "/" + y;
    var f, g := "/" + r1, "/" + r2;
    assert '\n' !in r1 && '\n' !in r2;
    MatchSlash(r1);
    MatchSlash(r2);
    SplitsOf(home, a, x);
    SplitsOf(home, b, y);
    assert PathOf(f) == [home, a, x] && PathOf(g) == [home, b, y];
    CommonAfterFirst(home, a, x, b, y);
    RelativeShape(f, g, mime);
    assert [home, b, y][1..] == [b, y];
    assert Ups(1) == "../" by { assert Ups(0) == ""; }
    JoinTwoComponents(b, y);
  }

  lemma JoinTwoComponents(b: string, y: string)
    requires Component(b) && Component(y)
    ensures Join([b, y]) == b + "/" + y
  {
    assert [b, y][..1] == [b];
  }

  lemma CommonAfterFirst(h: string, a: string, x: string, b: string, y: string)
    requires a != b
    ensures CommonLength([h, a, x], [h, b, y]) == 1
  {
    assert [h, a, x][1..] == [a, x] && [h, b, y][1..] == [b, y];
  }

  /** A name that starts with a lower-case letter or another character
      than '/' and has no newline matches with '/' as scheme. */
  lemma MatchSlash(r: string)
    requires '\n' !in r
    ensures MatchPrefix("/" + r) == Some(Prefixed("/", r))
  {
    assert ("/" + r)[1..] == r;
    NoNewline(r);
  }

  lemma {:induction false} NoNewline(s: string)
    requires '\n' !in s
    ensures UpToNewline(s) == s
  {
    if s != [] {
      assert s[0] in s;
      assert '\n' !in s[1..] by {
        forall k | 0 <= k < |s| - 1 ensures s[1..][k] != '\n' {
          assert s[1..][k] == s[k + 1];
        }
      }
      NoNewline(s[1..]);
      assert [s[0]] + s[1..] == s;
    }
  }

  lemma SplitsOf(a: string, b: string, c: string)
    requires Component(a) && Component(b) && Component(c)
    ensures PathSplit(a + "/" + b + "/" + c, []) == [a, b, c]
  {
    var d := a + "/" + b;
    assert d[0] == a[0] && d[|d| - 1] == b[|b| - 1];
    calc {
      PathSplit(d + "/" + c, []);
      { PathSplitSnoc(d, c, []); }
      PathSplit(d, [c] + []);
      { assert [c] + [] == [c]; }
      PathSplit(a + "/" + b, [c]);
      { PathSplitSnoc(a, b, [c]); }
      PathSplit(a, [b] + [c]);
      { assert [b] + [c] == [b, c]; }
      PathSplit(a, [b, c]);
      { PathSplitOne(a, [b, c]); }
      [a] + [b, c];
    }
    assert [a] + [b, c] == [a, b, c];
  }

  /** A last component is split off after a single slash. */
  lemma PathSplitSnoc(d: string, c: string, cs: seq<string>)
    requires Component(c) && d != [] && d[0] != '/' && d[|d| - 1] != '/'
    ensures PathSplit(d + "/" + c, cs) == PathSplit(d, [c] + cs)
  {
    var p := d + "/" + c;
    SlashEndAfter(d + "/", c);
    assert p[..|d| + 1] == d + "/";
    assert p[|d| + 1..] == c;
    assert RStripSlashes(d + "/") == d by { assert (d + "/")[..|d|] == d; }
    assert !AllSlashes(d + "/") by { assert (d + "/")[0] == d[0]; }
    assert SplitHead(p) == d && SplitTail(p) == c;
  }

  /** A single component is split into itself. */
  lemma PathSplitOne(c: string, cs: seq<string>)
    requires Component(c)
    ensures PathSplit(c, cs) == [c] + cs
  {
    SlashEndAfter([], c);
    assert [] + c == c;
    assert SplitHead(c) == [] && SplitTail(c) == c;
    PathSplitEmpty([c] + cs);
  }

  lemma SlashEndAfter(d: string, c: string)
    requires Component(c) && (d == [] || d[|d| - 1] == '/')
    ensures SlashEnd(d + c) == |d|
    decreases |c|
  {
    if c != [] {
      var c' := c[..|c| - 1];
      assert (d + c)[..|d + c| - 1] == d + c';
      if c' != [] {
        SlashEndAfter(d, c');
      } else {
        assert d + c' == d;
      }
    }
  }
}
