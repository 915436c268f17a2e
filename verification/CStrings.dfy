/** NUL-terminated strings as the C library functions see them. */
module CStrings {

  const NUL: char := '\0'

  datatype Option<+T> = None | Some(value: T)

  /** The first position of `c` in `s`, or the length of `s` when it does not occur. */
  function IndexOf(s: string, c: char): (i: nat)
    ensures i <= |s| && c !in s[..i]
    ensures i < |s| ==> s[i] == c
  {
    if s == [] || s[0] == c then 0 else 1 + IndexOf(s[1..], c)
  }

  lemma IndexOfUnique(s: string, c: char, i: nat)
    requires i <= |s| && c !in s[..i]
    requires i < |s| ==> s[i] == c
    ensures IndexOf(s, c) == i
  {
    assert forall k :: 0 <= k < i ==> s[k] == s[..i][k] != c;
    var j := IndexOf(s, c);
    assert forall k :: 0 <= k < j ==> s[k] == s[..j][k] != c;
  }

  /** The text held by a character buffer: everything before its first NUL. */
  function CString(buffer: string): (s: string)
    ensures s <= buffer && NUL !in s
  {
    buffer[..IndexOf(buffer, NUL)]
  }

  lemma CStringIs(buffer: string, s: string)
    requires NUL !in s && s <= buffer
    requires |s| == |buffer| || buffer[|s|] == NUL
    ensures CString(buffer) == s
  {
    assert buffer[..|s|] == s;
    IndexOfUnique(buffer, NUL, |s|);
  }

  /** Cutting a text at the first `c` of a concatenation whose left part is free of it. */
  lemma IndexOfAppend(left: string, right: string, c: char)
    requires c !in left
    ensures IndexOf(left + right, c) == |left| + IndexOf(right, c)
  {
    var n := IndexOf(right, c);
    assert (left + right)[..|left| + n] == left + right[..n];
    IndexOfUnique(left + right, c, |left| + n);
  }

  lemma CStringAppend(left: string, right: string)
    requires NUL !in left
    ensures CString(left + right) == left + CString(right)
  {
    IndexOfAppend(left, right, NUL);
    assert (left + right)[..|left| + IndexOf(right, NUL)] == left + right[..IndexOf(right, NUL)];
  }

  lemma CStringCut(left: string, right: string)
    requires NUL !in left && right != [] && right[0] == NUL
    ensures CString(left + right) == left
  {
    CStringIs(left + right, left);
  }

  method StrLen(a: array<char>) returns (n: nat)
    requires NUL in a[..]
    ensures n < a.Length && a[n] == NUL && a[..n] == CString(a[..])
  {
    n := 0;
    while a[n] != NUL
      invariant n < a.Length && NUL !in a[..n]
      decreases a.Length - n
    {
      assert a[..n + 1] == a[..n] + [a[n]];
      assert a[..n + 1] + a[n + 1..] == a[..];
      n := n + 1;
    }
    CStringIs(a[..], a[..n]);
  }

  /** `strcpy`: the text and its terminator, nothing beyond. */
  method StrCpy(dst: array<char>, src: array<char>)
    requires dst != src
    requires NUL in src[..]
    requires |CString(src[..])| < dst.Length
    modifies dst
    ensures var s := CString(src[..]);
      CString(dst[..]) == s && dst[|s|] == NUL && dst[|s| + 1..] == old(dst[|s| + 1..])
  {
    var n := StrLen(src);
    ghost var s := CString(src[..]);
    var i := 0;
    while i < n
      invariant i <= n == |s| && src[..n] == s
      invariant dst[..i] == s[..i]
      invariant forall j :: i <= j < dst.Length ==> dst[j] == old(dst[j])
    {
      dst[i] := src[i];
      assert dst[..i + 1] == dst[..i] + [s[i]];
      i := i + 1;
    }
    dst[n] := NUL;
    assert dst[..n] == s;
    CStringIs(dst[..], s);
  }

  /** `strcat`: appends `s` and a terminator after the text already in the buffer. */
  method StrCat(dst: array<char>, s: string)
    requires NUL in dst[..] && NUL !in s
    requires |CString(dst[..])| + |s| < dst.Length
    modifies dst
    ensures NUL in dst[..] && CString(dst[..]) == old(CString(dst[..])) + s
  {
    var n := StrLen(dst);
    ghost var before := CString(dst[..]);
    var i := 0;
    while i < |s|
      invariant i <= |s| && |before| == n
      invariant dst[..n + i] == before + s[..i]
    {
      dst[n + i] := s[i];
      assert dst[..n + i + 1] == dst[..n + i] + [s[i]];
      i := i + 1;
    }
    dst[n + i] := NUL;
    assert dst[..n + i] == before + s;
    assert dst[..][n + i] == NUL;
    CStringIs(dst[..], before + s);
  }

  /** A buffer of NULs reads as the empty string. */
  method EmptyBuffer(size: nat) returns (a: array<char>)
    requires size > 0
    ensures fresh(a) && a.Length == size && NUL in a[..] && CString(a[..]) == ""
  {
    a := new char[size](_ => NUL);
    assert a[..][0] == NUL;
    CStringIs(a[..], "");
  }

  /** `strcat`, reporting whether the text and its terminator stay inside the buffer. */
  method Cat(dst: array<char>, s: string) returns (fits: bool)
    requires NUL in dst[..] && NUL !in s
    modifies dst
    ensures NUL in dst[..] && (fits <==> old(|CString(dst[..])|) + |s| < dst.Length)
    ensures CString(dst[..]) == old(CString(dst[..])) + if fits then s else ""
  {
    var n := StrLen(dst);
    fits := n + |s| < dst.Length;
    if fits {
      StrCat(dst, s);
    }
  }
}
