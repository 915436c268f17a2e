/** Full paths and their parents, as the path hooks compute them. */
module Paths {
  import opened CStrings

  const PATH_MAX: nat := 4096

  function FullPath(cwd: string, path: string): string { cwd + "/" + path }

  /** Position of the k-th slash counted from the end, or -1. */
  function SlashFromEnd(s: string, k: nat): (i: int)
    requires k > 0
    ensures -1 <= i < |s|
    ensures i >= 0 ==> s[i] == '/'
    ensures k == 1 ==> (i >= 0 <==> '/' in s)
  {
    assert s != "" ==> s == s[..|s| - 1] + [s[|s| - 1]];
    if s == "" then -1
    else if s[|s| - 1] != '/' then SlashFromEnd(s[..|s| - 1], k)
    else if k == 1 then |s| - 1
    else SlashFromEnd(s[..|s| - 1], k - 1)
  }

  function SlashesNeeded(s: string): nat
    requires s != ""
  {
    if s[|s| - 1] == '/' then 2 else 1
  }

  /** The text in front of the last slash, one trailing slash not counted. */
  function ParentOf(s: string): string
    requires s != ""
  {
    var i := SlashFromEnd(s, SlashesNeeded(s));
    if i < 0 then s else s[..i]
  }

  // ------------------------------------------------------------- the buffers

  /** `getfullPath` onto a fresh buffer, which it takes to hold the empty string. */
  method GetFullPath(cwd: string, path: string, buffer: array<char>) returns (fits: bool)
    requires NUL !in cwd && NUL !in path
    requires NUL in buffer[..] && CString(buffer[..]) == ""
    modifies buffer
    ensures NUL in buffer[..] && (fits <==> |FullPath(cwd, path)| < buffer.Length)
    ensures fits ==> CString(buffer[..]) == FullPath(cwd, path)
  {
    fits := Cat(buffer, cwd);
    if fits {
      fits := Cat(buffer, "/");
    }
    if fits {
      fits := Cat(buffer, path);
    }
  }

  /** `getNewFullPath`. */
  method NewFullPath(cwd: string, path: string) returns (buffer: array<char>, fits: bool)
    requires NUL !in cwd && NUL !in path
    ensures fresh(buffer) && NUL in buffer[..] && (fits <==> |FullPath(cwd, path)| < PATH_MAX)
    ensures fits ==> CString(buffer[..]) == FullPath(cwd, path)
  {
    buffer := EmptyBuffer(PATH_MAX);
    fits := GetFullPath(cwd, path, buffer);
  }

  /** One character of the backward scan. */
  lemma SlashStep(s: string, i: nat, k: nat)
    requires i < |s| && k > 0
    ensures SlashFromEnd(s[..i + 1], k) ==
      if s[i] != '/' then SlashFromEnd(s[..i], k) else if k == 1 then i else SlashFromEnd(s[..i], k - 1)
  {
    assert s[..i + 1][..i] == s[..i];
  }

  lemma NoSlash(k: nat)
    requires k > 0
    ensures SlashFromEnd("", k) == -1
  {
  }

  /** `getParentDirFromFullPath`: scans backwards and cuts the text in place. */
  method GetParentDir(buffer: array<char>)
    requires NUL in buffer[..] && CString(buffer[..]) != ""
    modifies buffer
    ensures NUL in buffer[..] && CString(buffer[..]) == ParentOf(old(CString(buffer[..])))
  {
    hide CString, IndexOf, SlashFromEnd;
    ghost var b, s := buffer[..], CString(buffer[..]);
    var len := StrLen(buffer);
    var slashCount := if buffer[len - 1] == '/' then 2 else 1;
    assert b[..len] == s && b[len - 1] == s[len - 1];
    var i := len - 1;
    assert s[..len] == s && s[..0] == "";
    while i >= 0
      invariant -1 <= i < len == |s| && slashCount > 0 && buffer[..] == b
      invariant SlashFromEnd(s, SlashesNeeded(s)) == SlashFromEnd(s[..i + 1], slashCount)
    {
      SlashStep(s, i, slashCount);
      assert buffer[i] == b[i] == s[i];
      if buffer[i] == '/' {
        slashCount := slashCount - 1;
        if slashCount == 0 {
          buffer[i] := NUL;
          CutText(b, s, i, buffer[..]);
          return;
        }
      }
      i := i - 1;
    }
    NoSlash(slashCount);
  }

  lemma CutText(b: string, s: string, i: nat, cut: string)
    requires s <= b && NUL !in s && i < |s| && cut == b[i := NUL]
    ensures NUL in cut && CString(cut) == s[..i]
  {
    assert cut[i] == NUL;
    assert cut[..i] == s[..i];
    CStringIs(cut, s[..i]);
  }

  // -------------------------------------------------------- the parent's laws

  /** One name, with or without one trailing slash; a lone slash counts. */
  predicate Simple(path: string) {
    path != "" && '/' !in path[..|path| - 1]
  }

  lemma {:induction false} LastSlashAppend(a: string, b: string)
    ensures SlashFromEnd(a + b, 1) == if '/' in b then |a| + SlashFromEnd(b, 1) else SlashFromEnd(a, 1)
  {
    if b == "" {
      assert a + b == a;
    } else {
      var c := b[..|b| - 1];
      assert (a + b)[..|a + b| - 1] == a + c;
      assert b == c + [b[|b| - 1]];
      LastSlashAppend(a, c);
    }
  }

  lemma {:induction false} AfterLastSlash(s: string)
    ensures forall j :: SlashFromEnd(s, 1) < j < |s| ==> s[j] != '/'
  {
    if s != "" && s[|s| - 1] != '/' {
      AfterLastSlash(s[..|s| - 1]);
    }
  }

  lemma SecondSlash(a: string)
    ensures SlashFromEnd(a + "/", 2) == SlashFromEnd(a, 1)
  {
    assert (a + "/")[..|a|] == a;
  }

  /** Where the cut falls in `dir/path`. */
  lemma ParentCut(dir: string, path: string)
    requires path != ""
    ensures var rest := if path[|path| - 1] == '/' then path[..|path| - 1] else path;
      ParentOf(dir + "/" + path) ==
        if '/' in rest then dir + "/" + rest[..SlashFromEnd(rest, 1)] else dir
  {
    var full := dir + "/" + path;
    var rest := if path[|path| - 1] == '/' then path[..|path| - 1] else path;
    assert full[|full| - 1] == path[|path| - 1];
    LastSlashAppend(dir + "/", rest);
    assert (dir + "/")[|dir|] == '/';
    if path[|path| - 1] == '/' {
      assert full == (dir + "/" + rest) + "/";
      SecondSlash(dir + "/" + rest);
    }
    if '/' in rest {
      var i := SlashFromEnd(rest, 1);
      assert full[..|dir| + 1 + i] == dir + "/" + rest[..i];
    } else {
      assert full[..|dir|] == dir;
    }
  }

  /** For a name inside a subdirectory the parent is that subdirectory. */
  lemma ParentOfSimple(dir: string, path: string)
    requires Simple(path)
    ensures ParentOf(dir + "/" + path) == dir
  {
    ParentCut(dir, path);
    assert path == path[..|path| - 1] + [path[|path| - 1]];
  }

  lemma ParentBelow(cwd: string, sub: string, path: string)
    requires Simple(path)
    ensures ParentOf(FullPath(cwd, sub + "/" + path)) == FullPath(cwd, sub)
  {
    assert FullPath(cwd, sub + "/" + path) == FullPath(cwd, sub) + "/" + path;
    ParentOfSimple(FullPath(cwd, sub), path);
  }

  /** The parent of a built path is the working directory exactly for simple names. */
  lemma ParentIsCwdIff(cwd: string, path: string)
    requires '/' in cwd
    ensures ParentOf(FullPath(cwd, path)) == cwd <==> Simple(path)
  {
    var full := FullPath(cwd, path);
    if path == "" {
      assert full == cwd + "/";
      SecondSlash(cwd);
      LastSlashAppend(cwd, "");
      LastSlashAppend("", cwd);
      assert "" + cwd == cwd;
      assert |ParentOf(full)| < |cwd|;
    } else {
      ParentCut(cwd, path);
      assert path == path[..|path| - 1] + [path[|path| - 1]];
      var rest := if path[|path| - 1] == '/' then path[..|path| - 1] else path;
      if '/' in rest {
        assert |ParentOf(full)| > |cwd|;
      }
    }
  }

  /** Full paths of names are told apart by directory and name. */
  lemma FullPathInjective(dir1: string, name1: string, dir2: string, name2: string)
    requires Simple(name1) && Simple(name2)
    requires FullPath(dir1, name1) == FullPath(dir2, name2)
    ensures dir1 == dir2 && name1 == name2
  {
    ParentOfSimple(dir1, name1);
    ParentOfSimple(dir2, name2);
    assert FullPath(dir1, name1)[|dir1| + 1..] == name1;
    assert FullPath(dir2, name2)[|dir2| + 1..] == name2;
  }
}
