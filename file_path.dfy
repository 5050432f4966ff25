/** `gedit_file_convert_to_full_pathname` of gedit/file.c: a file name is
    made absolute and its `./` and `../` parts are removed by a single pass
    that copies the input into a buffer of the same size, backing up over
    the last directory on `../`. */
module GeditFile {
  import opened Common

  /** A C string holds no NUL character. */
  predicate CStr(s: string)
  {
    forall k :: 0 <= k < |s| ==> s[k] != '\0'
  }

  /** `s[i]` of a NUL-terminated string, the terminator past the end. */
  function CharAt(s: string, i: nat): char
  {
    if i < |s| then s[i] else '\0'
  }

  /** Lines 1073-1078 (POSIX `g_path_is_absolute`: a leading `/`). */
  function Absolutise(name: string, cwd: string): (r: string)
    ensures name != [] && name[0] == '/' ==> r == name
    ensures (name == [] || name[0] != '/') ==> r == cwd + "/" + name
  {
    if name != [] && name[0] == '/' then name else cwd + "/" + name
  }

  /** Index of the last `/` among the first `m` characters of `t`. */
  function LastSlashBefore(t: string, m: nat): (r: Option<nat>)
    requires m <= |t|
    ensures r.Some? ==> r.value < m && t[r.value] == '/'
    ensures r.Some? ==> forall k :: r.value < k < m ==> t[k] != '/'
    ensures r.None? ==> forall k :: 0 <= k < m ==> t[k] != '/'
  {
    if m == 0 then None
    else if t[m - 1] == '/' then Some(m - 1)
    else LastSlashBefore(t, m - 1)
  }

  /** The main loop (lines 1085-1108) from input index `i` with output
      `out` so far: the index and the output when it stops. A `../` that
      would climb above the root leaves the output at `/` (the C code reads
      before its buffer there; see BackUpAsWritten); None only for an
      output that does not start with `/`, which the loop never makes. */
  function Rewrite(s: string, i: nat, out: string): Option<(nat, string)>
    requires i <= |s|
    decreases |s| - i
  {
    if i + 1 >= |s| then Some((i, out))
    else if s[i] == '.' && s[i + 1] == '.' && CharAt(s, i + 2) == '/' then
      if |out| < 2 then Rewrite(s, i + 3, ['/'])
      else match LastSlashBefore(out, |out| - 1)
        case None => None
        case Some(k) => Rewrite(s, i + 3, out[..k] + ['/'])
    else if s[i] == '.' && s[i + 1] == '/' then Rewrite(s, i + 2, out)
    else Rewrite(s, i + 1, out + [s[i]])
  }

  /** The normalised name: the output of the loop followed by the last
      input character (lines 1110-1111), which is the terminator itself
      when the input ends in `../` or `./`. None when the name is not
      absolute (line 1083). */
  function Normalise(s: string): Option<string>
  {
    if s == [] || s[0] != '/' then None
    else match Rewrite(s, 0, [])
      case None => None
      case Some((i, out)) => Some(if CharAt(s, i) == '\0' then out else out + [s[i]])
  }

  /** The loop of lines 1094-1097 as written, from output index `j` (the
      output length less one): the index of the slash it stops on, or None
      when it reads the byte before the buffer, which it does when the
      output is the bare root. */
  function BackUpAsWritten(out: string, j: nat): Option<nat>
    requires j <= |out|
  {
    if j == 0 then None
    else if out[j - 1] == '/' then Some(j - 1)
    else BackUpAsWritten(out, j - 1)
  }

  /** Everywhere but at the root the back-up loop as written stops on the
      last slash before the output's last character. */
  lemma {:induction false} BackUpAsWrittenAgrees(out: string, j: nat)
    requires j <= |out| && out != [] && out[0] == '/'
    requires j >= 1
    ensures BackUpAsWritten(out, j) == LastSlashBefore(out, j)
  {
    if out[j - 1] != '/' {
      BackUpAsWrittenAgrees(out, j - 1);
    }
  }

  /** `/../a` meets its `../` with only `/` written, and the back-up loop
      then reads before the buffer; the model stays at the root. */
  lemma ClimbAboveRootAsWritten()
    ensures Rewrite("/../a", 0, []) == Rewrite("/../a", 1, "/")
    ensures BackUpAsWritten("/", |"/"| - 1) == None
    ensures Normalise("/../a") == Some("/a")
  {
    var s := "/../a";
    assert [] + [s[0]] == "/";
    assert Rewrite(s, 1, "/") == Rewrite(s, 4, ['/']) == Some((4, "/"));
    assert "/" + [s[4]] == "/a";
  }

  /** Lines 1094-1098: from output length `j`, the length of the output
      with the `/` before `..` and the directory before it removed, which is
      the index of the `/` preceding that directory. */
  method RemoveLastDirectory(buf: array<char>, j0: int) returns (j: int)
    requires 2 <= j0 <= buf.Length
    requires LastSlashBefore(buf[..j0], j0 - 1).Some?
    ensures j == LastSlashBefore(buf[..j0], j0 - 1).value
  {
    ghost var before := buf[..j0];
    j := j0;
    j := j - 1;
    while buf[j - 1] != '/'
      invariant 1 <= j <= j0 - 1
      invariant LastSlashBefore(before, j0 - 1).value <= j - 1
      decreases j
    {
      j := j - 1;
    }
    j := j - 1;
  }

  /** Lines 1061-1117 with the current directory as a parameter; the
      buffer is an array of the absolute name's length plus one. */
  method ConvertToFullPathname(fileName: Option<string>, cwd: string) returns (r: Option<string>)
    requires fileName.Some? ==> CStr(fileName.value) && CStr(cwd)
    ensures fileName.None? ==> r.None?
    ensures fileName.Some? ==> r == Normalise(Absolutise(fileName.value, cwd))
  {
    if fileName.None? {
      return None;
    }
    var fileNameIn := Absolutise(fileName.value, cwd);
    var n := |fileNameIn|;
    var fileNameOut := new char[n + 1];
    if n == 0 || fileNameIn[0] != '/' {
      return None;
    }
    RewriteShape(fileNameIn, 0, []);
    var i := 0;
    var j := 0;
    while i < n - 1
      invariant 0 <= i <= n && 0 <= j <= i
      invariant i == n ==> j < n
      invariant (i == 0 && j == 0) || (j >= 1 && fileNameOut[0] == '/')
      invariant Rewrite(fileNameIn, i, fileNameOut[..j]) == Rewrite(fileNameIn, 0, [])
      invariant Rewrite(fileNameIn, 0, []).Some?
      decreases n - i
    {
      i, j := RewriteStep(fileNameIn, fileNameOut, i, j);
    }
    ghost var last := fileNameOut[..j];
    fileNameOut[j] := CharAt(fileNameIn, i);
    j := j + 1;
    fileNameOut[j] := '\0';
    if fileNameOut[j - 1] == '\0' {
      assert fileNameOut[..j - 1] == last;
      return Some(fileNameOut[..j - 1]);
    }
    assert fileNameOut[..j] == last + [fileNameIn[i]];
    return Some(fileNameOut[..j]);
  }

  /** One pass of the loop of lines 1085-1108: `../` backs up over the
      last directory written (or stays at the root), `./` is skipped, any other character is
      copied. The rest of the rewrite is the same from the new position. */
  method RewriteStep(s: string, buf: array<char>, i: nat, j: nat) returns (i': nat, j': nat)
    requires s != [] && s[0] == '/' && buf.Length == |s| + 1
    requires i + 1 < |s| && j <= i
    requires (i == 0 && j == 0) || (j >= 1 && buf[0] == '/')
    requires Rewrite(s, i, buf[..j]).Some?
    modifies buf
    ensures i < i' <= |s| && j' <= i' && (i' == |s| ==> j' < |s|)
    ensures j' >= 1 && buf[0] == '/'
    ensures Rewrite(s, i', buf[..j']) == Rewrite(s, i, old(buf[..j]))
  {
    ghost var before := buf[..j];
    if s[i] == '.' && s[i + 1] == '.' && CharAt(s, i + 2) == '/' {
      if j < 2 {
        buf[0] := s[i + 2];
        j', i' := 1, i + 3;
        assert buf[..j'] == ['/'];
      } else {
        j' := RemoveLastDirectory(buf, j);
        assert buf[..j'] == before[..j'];
        buf[j'] := s[i + 2];
        j' := j' + 1;
        i' := i + 3;
        assert buf[..j'] == before[..j' - 1] + ['/'];
      }
    } else if s[i] == '.' && s[i + 1] == '/' {
      i', j' := i + 2, j;
    } else {
      buf[j] := s[i];
      j', i' := j + 1, i + 1;
      assert buf[..j'] == before + [s[i]];
    }
  }

  /** A stretch with no `./` and no `..` is copied as it is. */
  lemma {:induction false} RewriteCopies(s: string, i: nat, j: nat, out: string)
    requires i <= j < |s|
    requires forall k :: i <= k < j ==> s[k] != '.' || (s[k + 1] != '.' && s[k + 1] != '/')
    ensures Rewrite(s, i, out) == Rewrite(s, j, out + s[i..j])
    decreases j - i
  {
    if i < j {
      RewriteCopies(s, i + 1, j, out + [s[i]]);
      assert out + [s[i]] + s[i + 1..j] == out + s[i..j];
    } else {
      assert out + s[i..j] == out;
    }
  }

  /** A name without `./` and `..` is already normal. */
  lemma NormaliseKeepsPlainName(s: string)
    requires s != [] && s[0] == '/' && CStr(s)
    requires forall k :: 0 <= k < |s| - 1 ==> s[k] != '.' || (s[k + 1] != '.' && s[k + 1] != '/')
    ensures Normalise(s) == Some(s)
  {
    RewriteCopies(s, 0, |s| - 1, []);
    assert [] + s[0..|s| - 1] == s[..|s| - 1];
    assert s[..|s| - 1] + [s[|s| - 1]] == s;
  }

  /** What the loop keeps: the output starts with `/` and is never longer
      than the input read so far, and the loop stops on the last character
      or just past it. */
  lemma {:induction false} RewriteShape(s: string, i: nat, out: string)
    requires i <= |s| && s != [] && s[0] == '/'
    requires (i == 0 && out == []) || (out != [] && out[0] == '/')
    requires |out| <= i && (i == |s| ==> |out| < |s|)
    ensures Rewrite(s, i, out).Some?
    ensures Rewrite(s, i, out).Some? ==>
      var (i', out') := Rewrite(s, i, out).value;
      && |s| - 1 <= i' <= |s|
      && |out'| <= i' && (i' == |s| ==> |out'| < |s|)
      && ((i' == 0 && out' == []) || (out' != [] && out'[0] == '/'))
    decreases |s| - i
  {
    if i + 1 >= |s| {
    } else if s[i] == '.' && s[i + 1] == '.' && CharAt(s, i + 2) == '/' {
      if |out| < 2 {
        RewriteShape(s, i + 3, ['/']);
      } else {
        assert out[0] == '/';
        var k := LastSlashBefore(out, |out| - 1).value;
        RewriteShape(s, i + 3, out[..k] + ['/']);
      }
    } else if s[i] == '.' && s[i + 1] == '/' {
      RewriteShape(s, i + 2, out);
    } else {
      RewriteShape(s, i + 1, out + [s[i]]);
    }
  }

  /** Every absolute name has a full path, absolute and never longer than
      the name (the output buffer has its length plus one for the
      terminator); a name that is not absolute has none. */
  lemma NormaliseShape(s: string)
    ensures Normalise(s).Some? <==> s != [] && s[0] == '/'
    ensures Normalise(s).Some? ==> var r := Normalise(s).value; r != [] && r[0] == '/' && |r| <= |s|
  {
    if s != [] && s[0] == '/' {
      RewriteShape(s, 0, []);
    }
  }

  /** Small instances of the examples of the doc comment (lines
      1050-1055): `./` dropped, and `../` removing the directory before
      it, twice in a row. */
  lemma DocExampleDot()
    ensures Normalise("/a/./b/././c") == Some("/a/b/c")
  {
    var s := "/a/./b/././c";
    assert [] + [s[0]] + [s[1]] + [s[2]] == "/a/";
    assert Rewrite(s, 0, []) == Rewrite(s, 5, "/a/");
    assert "/a/" + [s[5]] + [s[6]] == "/a/b/";
    assert Rewrite(s, 5, "/a/") == Rewrite(s, 11, "/a/b/");
    assert "/a/b/" + [s[11]] == "/a/b/c";
  }

  lemma DocExampleDotDot()
    ensures Normalise("/a/b/c/../../d") == Some("/a/d")
  {
    var s := "/a/b/c/../../d";
    assert [] + [s[0]] + [s[1]] + [s[2]] + [s[3]] + [s[4]] + [s[5]] + [s[6]] == "/a/b/c/";
    assert Rewrite(s, 0, []) == Rewrite(s, 7, "/a/b/c/");
    assert LastSlashBefore("/a/b/c/", 6) == Some(4);
    assert "/a/b/c/"[..4] + ['/'] == "/a/b/";
    assert LastSlashBefore("/a/b/", 4) == Some(2);
    assert "/a/b/"[..2] + ['/'] == "/a/";
    assert Rewrite(s, 7, "/a/b/c/") == Rewrite(s, 13, "/a/");
    assert "/a/" + [s[13]] == "/a/d";
  }

  /** `./` is recognised anywhere, also after a name ending in a dot. */
  lemma DotSlashInsideName()
    ensures Normalise("/a./b") == Some("/ab")
  {
    var s := "/a./b";
    assert [] + [s[0]] == "/" && "/" + [s[1]] == "/a";
    assert Rewrite(s, 0, []) == Some((4, "/a"));
    assert "/a" + [s[4]] == "/ab";
  }
}
