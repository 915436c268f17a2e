/** `strsep` on a buffer, and the two-level use of it that reads the protect list. */
module Tokens {
  import opened CStrings
  import opened ProtectList
  import opened WireFormat

  /** A position from which a NUL can be reached. */
  ghost predicate Points(b: string, p: nat) { p <= |b| && NUL in b[p..] }

  /** The text that starts at a position of a buffer. */
  function Text(b: string, p: nat): string
    requires p <= |b|
  {
    CString(b[p..])
  }

  lemma TextIs(b: string, p: nat, s: string)
    requires NUL !in s && p + |s| < |b|
    requires b[p..p + |s|] == s && b[p + |s|] == NUL
    ensures Points(b, p) && Text(b, p) == s
  {
    assert b[p..][..|s|] == s;
    assert b[p..][|s|] == NUL;
    CStringIs(b[p..], s);
  }

  lemma TextMeans(b: string, p: nat)
    requires Points(b, p)
    ensures var s := Text(b, p);
      p + |s| < |b| && b[p..p + |s|] == s && b[p + |s|] == NUL
  {
    var s := Text(b, p);
    assert b[p..][..|b[p..]|] == b[p..];
    assert b[p..][|s|] == NUL;
    assert b[p..p + |s|] == b[p..][..|s|];
  }

  /** Putting a NUL into a text leaves two texts. */
  lemma TextCut(b: string, p: nat, n: nat)
    requires Points(b, p) && n < |Text(b, p)|
    ensures p + n < |b|
    ensures var s := Text(b, p); var c := b[p + n := NUL];
      Points(c, p) && Text(c, p) == s[..n] &&
      Points(c, p + n + 1) && Text(c, p + n + 1) == s[n + 1..]
  {
    TextMeans(b, p);
    var s, c := Text(b, p), b[p + n := NUL];
    assert c[p..p + n] == b[p..p + |s|][..n];
    TextIs(c, p, s[..n]);
    var q := p + n + 1;
    assert c[q..q + |s[n + 1..]|] == b[p..p + |s|][n + 1..];
    TextIs(c, q, s[n + 1..]);
  }

  /** The scan inside `strsep`: up to the delimiter or the end of the text. */
  method Scan(a: array<char>, start: nat, delim: char) returns (i: nat)
    requires Points(a[..], start)
    ensures var s := Text(a[..], start);
      i == start + IndexOf(s, delim) < a.Length && a[i] == if i < start + |s| then delim else NUL
  {
    ghost var s := Text(a[..], start);
    TextMeans(a[..], start);
    i := start;
    while a[i] != delim && a[i] != NUL
      invariant start <= i <= start + |s| && delim !in s[..i - start]
      decreases start + |s| - i
    {
      assert a[i] == s[i - start];
      assert s[..i - start + 1] == s[..i - start] + [a[i]];
      i := i + 1;
    }
    if i < start + |s| {
      assert a[i] == s[i - start];
    }
    IndexOfUnique(s, delim, i - start);
  }

  /** One separating step on a buffer, from `p` on. */
  ghost predicate Separated(before: string, p: nat, delim: char, after: string, next: Option<nat>)
    requires p <= |before|
  {
    var s := Text(before, p);
    var n := IndexOf(s, delim);
    if n == |s| then after == before && next == None
    else p + n < |before| && after == before[p + n := NUL] && next == Some(p + n + 1)
  }

  /** `strsep`: returns the current token, cuts it off at the delimiter and steps behind it. */
  method StrSep(a: array<char>, p: Option<nat>, delim: char) returns (token: Option<nat>, next: Option<nat>)
    requires delim != NUL
    requires p.Some? ==> Points(a[..], p.value)
    modifies a
    ensures token == p
    ensures p == None ==> next == None && a[..] == old(a[..])
    ensures p.Some? ==> Separated(old(a[..]), p.value, delim, a[..], next)
  {
    token := p;
    if p == None {
      return token, None;
    }
    var i := Scan(a, p.value, delim);
    if a[i] == delim {
      a[i] := NUL;
      next := Some(i + 1);
    } else {
      next := None;
    }
  }

  /** The token holds the text before the delimiter, the rest the text behind it. */
  lemma SeparatedTexts(before: string, p: nat, delim: char, after: string, next: Option<nat>)
    requires Points(before, p) && Separated(before, p, delim, after, next)
    ensures |after| == |before|
    ensures var s := Text(before, p); var n := IndexOf(s, delim);
      Points(after, p) && Text(after, p) == s[..n] &&
      (next == None <==> n == |s|) &&
      (next.Some? ==> n < |s| && next.value == p + n + 1 &&
                      Points(after, next.value) && Text(after, next.value) == s[n + 1..])
  {
    var s := Text(before, p);
    var n := IndexOf(s, delim);
    if n == |s| {
      assert s[..n] == s;
    } else {
      TextCut(before, p, n);
    }
  }

  /** What a turn of the parser leaves of `text`: the path, the type and the lines after. */
  ghost predicate LineTaken(text: string, p: nat, b: string, rest: Option<nat>, kind: Option<nat>) {
    var eol := IndexOf(text, '\n');
    var line := text[..eol];
    var at := IndexOf(line, '@');
    Points(b, p) && Text(b, p) == line[..at] &&
    (kind == None <==> '@' !in line) &&
    (kind.Some? ==> at < |line| && Points(b, kind.value) && Text(b, kind.value) == line[at + 1..]) &&
    (rest == None <==> eol == |text|) &&
    (rest.Some? ==> p < rest.value && eol < |text| && Points(b, rest.value) &&
                    Text(b, rest.value) == text[eol + 1..])
  }

  /** The inner `strsep` works on the line that the outer one cut off. */
  lemma LineSeparated(b0: string, p: nat, b1: string, rest: Option<nat>, b2: string, kind: Option<nat>)
    requires Points(b0, p) && Separated(b0, p, '\n', b1, rest)
    requires Points(b1, p) && Separated(b1, p, '@', b2, kind)
    ensures |b2| == |b0| && LineTaken(Text(b0, p), p, b2, rest, kind)
  {
    hide IndexOf, CString;
    SeparatedTexts(b0, p, '\n', b1, rest);
    SeparatedTexts(b1, p, '@', b2, kind);
    MarkedCut(Text(b1, p));
    if rest.Some? && kind.Some? {
      WriteBelow(b1, kind.value - 1, rest.value);
    }
  }

  lemma WriteBelow(b: string, i: nat, j: nat)
    requires i < j <= |b|
    ensures b[i := NUL][j..] == b[j..]
  {
  }

  /** The two `strsep` calls of one turn of the parser's loop. */
  method SplitLine(a: array<char>, from: Option<nat>)
    returns (rest: Option<nat>, path: Option<nat>, kind: Option<nat>)
    requires from.Some? ==> Points(a[..], from.value)
    modifies a
    ensures path == from
    ensures from == None ==> rest == None && kind == None
    ensures from.Some? ==> LineTaken(old(Text(a[..], from.value)), from.value, a[..], rest, kind)
  {
    ghost var b0 := a[..];
    var token;
    token, rest := StrSep(a, from, '\n');
    ghost var b1 := a[..];
    if from.Some? {
      SeparatedTexts(b0, from.value, '\n', b1, rest);
    }
    path, kind := StrSep(a, token, '@');
    if from.Some? {
      LineSeparated(b0, from.value, b1, rest, a[..], kind);
    }
  }

  function AsSeq<T>(o: Option<T>): seq<T> {
    if o == None then [] else [o.value]
  }

  /** What one turn of the parser's loop finds in a line: at most one entry; `more` tells whether
      the line has an '@'. An openable line without one makes `protectTypeFromStr` compare a null pointer. */
  ghost predicate LineMeans(line: string, files: Files, found: Option<Entry>, more: bool, fault: bool) {
    (more <==> '@' in line) &&
    (fault <==> !more && Openable(line, files)) &&
    AsSeq(found) == if '@' in line then LineEntry(line, files) else []
  }

  method TakeEntry(a: array<char>, path: nat, kind: Option<nat>, files: Files, ghost line: string)
    returns (found: Option<Entry>, more: bool, fault: bool)
    requires Points(a[..], path) && Text(a[..], path) == line[..IndexOf(line, '@')]
    requires kind == None <==> '@' !in line
    requires kind.Some? ==> IndexOf(line, '@') < |line| && Points(a[..], kind.value) &&
                            Text(a[..], kind.value) == line[IndexOf(line, '@') + 1..]
    ensures LineMeans(line, files, found, more, fault)
    ensures found.Some? ==> NUL !in found.value.path
  {
    found, fault, more := None, false, kind.Some?;
    MarkedCut(line);
    assert line[..|line|] == line;
    var name := CString(a[path..]);
    assert a[path..] == a[..][path..];
    if Openable(name, files) {
      if kind == None {
        fault := true;
      } else {
        assert a[kind.value..] == a[..][kind.value..];
        found := Some(Entry(Stored(name), files(name).value, TypeOf(CString(a[kind.value..]))));
      }
    }
  }

  /** What remains to be parsed: the text at `rest`, or nothing. */
  ghost function Remaining(b: string, rest: Option<nat>, files: Files): Parsed
    requires rest.Some? ==> Points(b, rest.value)
  {
    if rest == None then Parsed([], false) else Parse(Text(b, rest.value), files)
  }

  lemma ParseTurn(text: string, p: nat, b: string, rest: Option<nat>, kind: Option<nat>, files: Files,
                  found: Option<Entry>, more: bool, fault: bool)
    requires LineTaken(text, p, b, rest, kind)
    requires LineMeans(text[..IndexOf(text, '\n')], files, found, more, fault)
    ensures var later := if more then Remaining(b, rest, files) else Parsed([], fault);
      Parse(text, files) == Parsed(AsSeq(found) + later.entries, later.fault)
  {
  }

  lemma Reassociate<T>(a: seq<T>, x: T, b: seq<T>)
    ensures a + ([x] + b) == (a + [x]) + b
  {
  }

  /** The body of the parser's loop. */
  method Turn(a: array<char>, from: Option<nat>, files: Files)
    returns (rest: Option<nat>, found: Option<Entry>, more: bool, fault: bool)
    requires from.Some? ==> Points(a[..], from.value)
    modifies a
    ensures rest.Some? ==> from.Some? && from.value < rest.value && Points(a[..], rest.value)
    ensures more ==> from.Some? && !fault
    ensures found.Some? ==> NUL !in found.value.path
    ensures var later := if more then Remaining(a[..], rest, files) else Parsed([], fault);
      old(Remaining(a[..], from, files)) == Parsed(AsSeq(found) + later.entries, later.fault)
  {
    ghost var text := if from.Some? then Text(a[..], from.value) else "";
    var path, kind;
    rest, path, kind := SplitLine(a, from);
    found, more, fault := None, kind.Some?, false;
    if path.Some? {
      found, more, fault := TakeEntry(a, path.value, kind, files, text[..IndexOf(text, '\n')]);
      ParseTurn(text, path.value, a[..], rest, kind, files, found, more, fault);
    }
  }

  /** The parser's working copy of a text. */
  method WorkingCopy(rdt: array<char>) returns (tmp: array<char>)
    requires NUL in rdt[..]
    ensures fresh(tmp) && Points(tmp[..], 0) && Text(tmp[..], 0) == CString(rdt[..])
  {
    tmp := new char[rdt.Length];
    ghost var n := |CString(rdt[..])|;
    TextMeans(rdt[..], 0) by { assert rdt[..][0..] == rdt[..]; }
    assert rdt[..][0..] == rdt[..];
    StrCpy(tmp, rdt);
    assert tmp[..][0..] == tmp[..] && tmp[..][n] == NUL;
  }
}
