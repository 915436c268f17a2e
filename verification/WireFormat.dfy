/** The text that carries the protect list from the client to the kernel: `path@t` lines. */
module WireFormat {
  import opened CStrings
  import opened ProtectList

  // ---------------------------------------------------------------- printing

  function Line(x: Item): string { x.path + ['@', x.kind, '\n'] }

  function Print(xs: seq<Item>): string {
    if xs == [] then "" else Line(xs[0]) + Print(xs[1..])
  }

  /** Bytes the printer writes. */
  function PrintSize(xs: seq<Item>): nat {
    if xs == [] then 0 else |xs[0].path| + 3 + PrintSize(xs[1..])
  }

  lemma {:induction false} PrintLength(xs: seq<Item>)
    ensures |Print(xs)| == PrintSize(xs)
  {
    if xs != [] {
      PrintLength(xs[1..]);
    }
  }

  lemma {:induction false} PrintAppend(xs: seq<Item>, ys: seq<Item>)
    ensures Print(xs + ys) == Print(xs) + Print(ys)
    ensures PrintSize(xs + ys) == PrintSize(xs) + PrintSize(ys)
  {
    if xs == [] {
      assert xs + ys == ys;
    } else {
      assert (xs + ys)[1..] == xs[1..] + ys;
      PrintAppend(xs[1..], ys);
    }
  }

  /** A path the client can hold: it fits its 256 bytes and is one line of text. */
  predicate Clean(path: string) {
    |path| < FILEPATH_SIZE && NUL !in path && '\n' !in path
  }

  ghost predicate AllClean(xs: seq<Item>) {
    forall i :: 0 <= i < |xs| ==> Clean(xs[i].path)
  }

  /** The printed list stays inside its 64 KiB buffer, and `strlen` finds a NUL there: behind the text, or
      as a type character inside a text that fills the buffer. */
  predicate Fits(xs: seq<Item>) {
    PrintSize(xs) < BUFFER_SIZE || (PrintSize(xs) == BUFFER_SIZE && NUL in Print(xs))
  }

  /** Whatever prints up to 65535 bytes fits; one byte more does exactly if a type character is a NUL. */
  lemma FitsIff(xs: seq<Item>)
    requires AllClean(xs)
    ensures Fits(xs) <==>
      PrintSize(xs) <= 65535 || (PrintSize(xs) == 65536 && exists x :: x in xs && x.kind == '\0')
  {
    NulPrintedIff(xs);
  }

  lemma {:induction false} NulPrintedIff(xs: seq<Item>)
    requires AllClean(xs)
    ensures NUL in Print(xs) <==> exists x :: x in xs && x.kind == NUL
  {
    if xs != [] {
      NulPrintedIff(xs[1..]);
      assert xs == [xs[0]] + xs[1..];
      assert Line(xs[0])[|xs[0].path| + 1] == xs[0].kind;
    }
  }

  lemma {:induction false} PrintSizeBound(xs: seq<Item>)
    requires AllClean(xs)
    ensures PrintSize(xs) <= 258 * |xs|
  {
    if xs != [] {
      PrintSizeBound(xs[1..]);
    }
  }

  /** 254 entries always fit, whatever their paths. */
  lemma UpTo254Fit(xs: seq<Item>)
    requires AllClean(xs) && |xs| <= 254
    ensures Fits(xs)
  {
    PrintSizeBound(xs);
  }

  /** 255 entries with the longest paths do not. */
  lemma {:induction false} LongestPathsSize(xs: seq<Item>)
    requires forall i :: 0 <= i < |xs| ==> |xs[i].path| == FILEPATH_SIZE - 1
    ensures PrintSize(xs) == 258 * |xs| && (Fits(xs) <==> |xs| <= 254)
  {
    if xs != [] {
      LongestPathsSize(xs[1..]);
    }
  }

  // ----------------------------------------------------------------- parsing

  /** `fault`: the parser reaches `strcmp` with a null type string. */
  datatype Parsed = Parsed(entries: seq<Entry>, fault: bool)

  predicate Openable(path: string, files: Files) {
    path != "" && files(path).Some?
  }

  /** The stored path is a 256-byte copy. */
  function Stored(path: string): string {
    if |path| <= FILEPATH_SIZE then path else path[..FILEPATH_SIZE]
  }

  /** The entry for a path and the text of its type, if the path can be opened. */
  function EntryFor(path: string, kind: string, files: Files): seq<Entry> {
    if Openable(path, files) then [Entry(Stored(path), files(path).value, TypeOf(kind))] else []
  }

  lemma MarkedCut(line: string)
    ensures '@' in line <==> IndexOf(line, '@') < |line|
  {
    assert line[..|line|] == line;
  }

  /** A line cut at its first '@'. */
  function LineEntry(line: string, files: Files): seq<Entry>
    requires '@' in line
  {
    MarkedCut(line);
    var at := IndexOf(line, '@');
    EntryFor(line[..at], line[at + 1..], files)
  }

  /** Line by line, each cut at its first '@', up to the first line that has none. */
  function Parse(text: string, files: Files): Parsed
    decreases |text|
  {
    var eol := IndexOf(text, '\n');
    var line := text[..eol];
    if '@' !in line then Parsed([], Openable(line, files))
    else if eol == |text| then Parsed(LineEntry(line, files), false)
    else
      var later := Parse(text[eol + 1..], files);
      Parsed(LineEntry(line, files) + later.entries, later.fault)
  }

  lemma ParseNothing(files: Files)
    ensures Parse("", files) == Parsed([], false)
  {
  }

  /** Lines of a text. */
  function Lines(text: string): (ls: seq<string>)
    ensures |ls| > 0
    decreases |text|
  {
    var eol := IndexOf(text, '\n');
    if eol == |text| then [text] else [text[..eol]] + Lines(text[eol + 1..])
  }

  function JoinLines(ls: seq<string>): string
    requires |ls| > 0
  {
    if |ls| == 1 then ls[0] else ls[0] + "\n" + JoinLines(ls[1..])
  }

  /** Lines are the newline-free pieces that make up the text. */
  lemma {:induction false} LinesMakeText(text: string)
    ensures JoinLines(Lines(text)) == text && forall i :: 0 <= i < |Lines(text)| ==> '\n' !in Lines(text)[i]
    decreases |text|
  {
    var eol := IndexOf(text, '\n');
    FirstLine(text, eol);
    hide *;
    if eol < |text| {
      LinesMakeText(text[eol + 1..]);
      LinesCons(text[..eol], Lines(text[eol + 1..]));
      CutAt(text, eol);
    } else {
      assert text[..eol] == text;
      OneLineOnly(text);
    }
  }

  lemma CutAt(text: string, eol: nat)
    requires eol < |text| && text[eol] == '\n'
    ensures text == text[..eol] + "\n" + text[eol + 1..]
  {
  }

  lemma LinesCons(line: string, later: seq<string>)
    requires later != [] && '\n' !in line && forall i :: 0 <= i < |later| ==> '\n' !in later[i]
    ensures JoinLines([line] + later) == line + "\n" + JoinLines(later)
    ensures forall i :: 0 <= i <= |later| ==> '\n' !in ([line] + later)[i]
  {
    assert ([line] + later)[1..] == later;
  }

  lemma OneLineOnly(line: string)
    ensures JoinLines([line]) == line
  {
  }

  /** Number of leading lines that contain an '@'. */
  function Marked(ls: seq<string>): (n: nat)
    ensures n <= |ls|
    ensures forall i :: 0 <= i < n ==> '@' in ls[i]
    ensures n < |ls| ==> '@' !in ls[n]
  {
    if ls == [] || '@' !in ls[0] then 0 else 1 + Marked(ls[1..])
  }

  ghost function LineEntries(ls: seq<string>, files: Files): seq<Entry>
    requires forall i :: 0 <= i < |ls| ==> '@' in ls[i]
  {
    if ls == [] then [] else LineEntry(ls[0], files) + LineEntries(ls[1..], files)
  }

  lemma ParseUnmarked(text: string, eol: nat, line: string, files: Files)
    requires eol == IndexOf(text, '\n') && line == text[..eol] && '@' !in line
    ensures Parse(text, files) == Parsed([], Openable(line, files))
  {
    hide IndexOf, Openable;
  }

  lemma ParseMarked(text: string, eol: nat, line: string, later: Parsed, files: Files)
    requires eol == IndexOf(text, '\n') && line == text[..eol] && '@' in line
    requires later == if eol < |text| then Parse(text[eol + 1..], files) else Parsed([], false)
    ensures Parse(text, files) == Parsed(LineEntry(line, files) + later.entries, later.fault)
  {
    hide IndexOf, LineEntry, Openable;
  }

  /** A result that is: the entries of the marked lines at the front, and a fault exactly when the line
      that ends them names a file that can be opened. */
  ghost predicate Means(p: Parsed, ls: seq<string>, files: Files) {
    var n := Marked(ls);
    p.entries == LineEntries(ls[..n], files) && (p.fault <==> n < |ls| && Openable(ls[n], files))
  }

  lemma NoLinesMean(files: Files)
    ensures Means(Parsed([], false), [], files)
  {
  }

  lemma UnmarkedMeans(ls: seq<string>, files: Files)
    requires ls != [] && '@' !in ls[0]
    ensures Means(Parsed([], Openable(ls[0], files)), ls, files)
  {
  }

  lemma MarkedMeans(line: string, later: seq<string>, p: Parsed, files: Files)
    requires '@' in line && Means(p, later, files)
    ensures Means(Parsed(LineEntry(line, files) + p.entries, p.fault), [line] + later, files)
  {
    hide LineEntry, Openable;
    LineEntriesCons(line, later, files);
    assert forall i :: 0 <= i < |later| ==> ([line] + later)[i + 1] == later[i];
  }

  lemma {:induction false} ParseMeans(text: string, files: Files)
    ensures Means(Parse(text, files), Lines(text), files)
    decreases |text|
  {
    var eol := IndexOf(text, '\n');
    var line := text[..eol];
    FirstLine(text, eol);
    hide *;
    if '@' !in line {
      assert eol == |text| ==> line == text;
      ParseUnmarked(text, eol, line, files);
      UnmarkedMeans(Lines(text), files);
    } else {
      var later, after := [], Parsed([], false);
      if eol < |text| {
        later, after := Lines(text[eol + 1..]), Parse(text[eol + 1..], files);
        ParseMeans(text[eol + 1..], files);
      } else {
        NoLinesMean(files);
        assert text[..eol] == text && [text] + [] == [text];
      }
      ParseMarked(text, eol, line, after, files);
      MarkedMeans(line, later, after, files);
    }
  }

  /** Parsing reads the marked lines at the front and nothing else; it fails exactly when the
      line that ends them names a file that can be opened. */
  lemma ParseByLines(text: string, files: Files)
    ensures var ls := Lines(text); var n := Marked(ls);
      Parse(text, files).entries == LineEntries(ls[..n], files) &&
      (Parse(text, files).fault <==> n < |ls| && Openable(ls[n], files))
  {
    hide Parse, Lines;
    ParseMeans(text, files);
  }

  lemma LineEntriesCons(line: string, later: seq<string>, files: Files)
    requires '@' in line
    ensures Marked([line] + later) == 1 + Marked(later)
    ensures LineEntries(([line] + later)[..1 + Marked(later)], files) ==
            LineEntry(line, files) + LineEntries(later[..Marked(later)], files)
  {
    assert ([line] + later)[1..] == later;
    assert ([line] + later)[..1 + Marked(later)] == [line] + later[..Marked(later)];
  }

  lemma FirstLine(text: string, eol: nat)
    requires eol == IndexOf(text, '\n')
    ensures eol == |text| ==> Lines(text) == [text]
    ensures eol < |text| ==> Lines(text) == [text[..eol]] + Lines(text[eol + 1..])
  {
    hide IndexOf;
  }

  // -------------------------------------------------------------- round trip

  predicate BreaksText(kind: char) { kind == '\n' || kind == NUL }

  /** The items up to and including the first whose type character ends the text early. */
  function Carried(xs: seq<Item>): seq<Item> {
    if xs == [] then []
    else if BreaksText(xs[0].kind) then [xs[0]]
    else [xs[0]] + Carried(xs[1..])
  }

  /** What arrives for one item: a path with an '@' is cut there and loses its type. */
  function Arrives(x: Item, files: Files): seq<Entry> {
    var at := IndexOf(x.path, '@');
    EntryFor(x.path[..at], if at < |x.path| then x.path[at + 1..] + ['@', x.kind] else [x.kind], files)
  }

  function Arrived(xs: seq<Item>, files: Files): seq<Entry> {
    if xs == [] then [] else Arrives(xs[0], files) + Arrived(xs[1..], files)
  }

  /** The kernel's copy of a client list. */
  function Replica(xs: seq<Item>, files: Files): seq<Entry> { Arrived(Carried(xs), files) }

  lemma ParseFirstLine(line: string, rest: string, files: Files)
    requires '\n' !in line && '@' in line
    ensures var later := Parse(rest, files);
      Parse(line + "\n" + rest, files) == Parsed(LineEntry(line, files) + later.entries, later.fault)
  {
    var text := line + "\n" + rest;
    assert text == line + ("\n" + rest);
    IndexOfAppend(line, "\n" + rest, '\n');
    assert text[..|line|] == line && text[|line| + 1..] == rest;
    assert line[..|line|] == line;
  }

  lemma LineArrives(x: Item, tail: string, files: Files)
    requires tail == [x.kind] || (tail == [] && TypeOf([x.kind]) == NoType)
    ensures '@' in x.path + ['@'] + tail
    ensures LineEntry(x.path + ['@'] + tail, files) == Arrives(x, files)
  {
    MarkedCut(x.path);
    if '@' in x.path {
      MarkedLineArrives(x, tail, files);
    } else {
      LineCut(x.path, tail, files);
      assert x.path[..|x.path|] == x.path;
      SameEntry(x.path, tail, [x.kind], files);
    }
  }

  lemma MarkedLineArrives(x: Item, tail: string, files: Files)
    requires '@' in x.path
    ensures '@' in x.path + ['@'] + tail
    ensures LineEntry(x.path + ['@'] + tail, files) == Arrives(x, files)
  {
    MarkedCut(x.path);
    var at := IndexOf(x.path, '@');
    var rest := x.path[at + 1..];
    LineSplit(x.path, at, tail);
    LineCut(x.path[..at], rest + ['@'] + tail, files);
    TypeWithMark(rest, tail);
    TypeWithMark(rest, [x.kind]);
    SameEntry(x.path[..at], rest + ['@'] + tail, rest + ['@'] + [x.kind], files);
    assert rest + ['@', x.kind] == rest + ['@'] + [x.kind];
  }

  lemma LineSplit(path: string, at: nat, tail: string)
    requires at < |path| && path[at] == '@'
    ensures path + ['@'] + tail == path[..at] + ['@'] + (path[at + 1..] + ['@'] + tail)
  {
  }

  lemma SameEntry(path: string, kind1: string, kind2: string, files: Files)
    requires TypeOf(kind1) == TypeOf(kind2)
    ensures EntryFor(path, kind1, files) == EntryFor(path, kind2, files)
  {
  }

  lemma LineCut(path: string, kind: string, files: Files)
    requires '@' !in path
    ensures '@' in path + ['@'] + kind
    ensures LineEntry(path + ['@'] + kind, files) == EntryFor(path, kind, files)
  {
    var line := path + ['@'] + kind;
    assert line[|path|] == '@';
    assert line[..|path|] == path;
    IndexOfUnique(line, '@', |path|);
    assert line[|path| + 1..] == kind;
  }

  lemma TypeWithMark(before: string, after: string)
    ensures TypeOf(before + ['@'] + after) == NoType
  {
    assert (before + ['@'] + after)[|before|] == '@';
  }

  /** What the kernel parses is the text up to its first NUL; for a printed list this yields the
      replica, and the parser never faults. */
  lemma {:induction false} ParsePrinted(xs: seq<Item>, files: Files)
    requires AllClean(xs)
    ensures Parse(CString(Print(xs)), files) == Parsed(Replica(xs, files), false)
  {
    if xs != [] {
      if BreaksText(xs[0].kind) {
        ParseBroken(xs, files);
        ReplicaOfBroken(xs, files);
      } else {
        ParsePrinted(xs[1..], files);
        ParseUnbroken(xs, files);
        assert Carried(xs)[1..] == Carried(xs[1..]);
      }
    }
  }

  lemma ParseBroken(xs: seq<Item>, files: Files)
    requires xs != [] && Clean(xs[0].path) && BreaksText(xs[0].kind)
    ensures Parse(CString(Print(xs)), files) == Parsed(Arrives(xs[0], files), false)
  {
    var head := xs[0].path + ['@'];
    var more := CString(Print(xs[1..]));
    PrintedText(xs);
    LineArrives(xs[0], [], files);
    assert head + [] == head;
    if xs[0].kind == NUL {
      ParseLastLine(head, files);
    } else {
      ParseFirstLine(head, "\n" + more, files);
      EmptyFirstLine(more, files);
    }
  }

  lemma EmptyFirstLine(more: string, files: Files)
    ensures Parse("\n" + more, files) == Parsed([], false)
  {
    IndexOfUnique("\n" + more, '\n', 0);
  }

  lemma ParseUnbroken(xs: seq<Item>, files: Files)
    requires xs != [] && Clean(xs[0].path) && !BreaksText(xs[0].kind)
    ensures var later := Parse(CString(Print(xs[1..])), files);
      Parse(CString(Print(xs)), files) == Parsed(Arrives(xs[0], files) + later.entries, later.fault)
  {
    PrintedText(xs);
    LineArrives(xs[0], [xs[0].kind], files);
    ParseFirstLine(xs[0].path + ['@'] + [xs[0].kind], CString(Print(xs[1..])), files);
  }

  lemma ReplicaOfBroken(xs: seq<Item>, files: Files)
    requires xs != [] && BreaksText(xs[0].kind)
    ensures Replica(xs, files) == Arrives(xs[0], files)
  {
    assert Carried(xs) == [xs[0]];
    assert [xs[0]][1..] == [];
    assert Arrived([xs[0]], files) == Arrives(xs[0], files) + Arrived([], files);
  }

  /** How much of a printed list the kernel gets to see, by the type character of the first item. */
  lemma PrintedText(xs: seq<Item>)
    requires xs != [] && NUL !in xs[0].path
    ensures var head := xs[0].path + ['@']; var more := CString(Print(xs[1..])); var k := xs[0].kind;
      CString(Print(xs)) == if k == NUL then head
                            else if k == '\n' then head + "\n" + ("\n" + more)
                            else head + [k] + "\n" + more
  {
    var k, more := xs[0].kind, Print(xs[1..]);
    var head := xs[0].path + ['@'];
    PrintedFirst(xs);
    hide *;
    if k == NUL {
      CStringCut(head, [k, '\n'] + more);
    } else {
      LineBeforeRest(head, k, more);
      CStringAppend(head + [k, '\n'], more);
      Regroup(head, "\n", CString(more));
    }
  }

  lemma PrintedFirst(xs: seq<Item>)
    requires xs != []
    ensures var head := xs[0].path + ['@']; Print(xs) == head + ([xs[0].kind, '\n'] + Print(xs[1..]))
  {
    var k, more := xs[0].kind, Print(xs[1..]);
    hide Print;
    assert xs[0].path + ['@', k, '\n'] + more == xs[0].path + ['@'] + ([k, '\n'] + more);
  }

  lemma LineBeforeRest(head: string, k: char, more: string)
    ensures head + ([k, '\n'] + more) == head + [k, '\n'] + more && head + [k, '\n'] == head + [k] + "\n"
  {
  }

  lemma Regroup(a: string, b: string, c: string)
    ensures a + b + b + c == a + b + (b + c)
  {
  }

  lemma ParseLastLine(line: string, files: Files)
    requires '\n' !in line && '@' in line
    ensures Parse(line, files) == Parsed(LineEntry(line, files), false)
  {
    IndexOfUnique(line, '\n', |line|);
    assert line[..|line|] == line;
  }

  // ------------------------------------------------ when the replica is exact

  /** What the user asked for: every openable path with its inode and type. */
  function Wanted(xs: seq<Item>, files: Files): seq<Entry> {
    if xs == [] then []
    else EntryFor(xs[0].path, [xs[0].kind], files) + Wanted(xs[1..], files)
  }

  predicate Unmarked(xs: seq<Item>) { forall x :: x in xs ==> '@' !in x.path }

  predicate Unbroken(xs: seq<Item>) { forall x :: x in xs ==> !BreaksText(x.kind) }

  lemma {:induction false} UnbrokenCarriesAll(xs: seq<Item>)
    requires Unbroken(xs)
    ensures Carried(xs) == xs
  {
    if xs != [] {
      UnbrokenCarriesAll(xs[1..]);
    }
  }

  lemma {:induction false} UnmarkedArrives(xs: seq<Item>, files: Files)
    requires Unmarked(xs)
    ensures Arrived(xs, files) == Wanted(xs, files)
  {
    if xs != [] {
      var p := xs[0].path;
      assert xs[0] in xs;
      IndexOfUnique(p, '@', |p|);
      assert p[..|p|] == p;
      UnmarkedArrives(xs[1..], files);
    }
  }

  /** The round trip: clean paths without '@' and type characters that do not end the text. */
  lemma RoundTrip(xs: seq<Item>, files: Files)
    requires AllClean(xs) && Unmarked(xs) && Unbroken(xs)
    ensures Parse(CString(Print(xs)), files) == Parsed(Wanted(xs, files), false)
  {
    ParsePrinted(xs, files);
    UnbrokenCarriesAll(xs);
    UnmarkedArrives(xs, files);
  }

  /** An '@' does no harm exactly when neither the path nor its part before the '@' can be opened. */
  predicate Harmless(x: Item, files: Files) {
    '@' in x.path ==> !Openable(x.path, files) && !Openable(x.path[..IndexOf(x.path, '@')], files)
  }

  lemma {:induction false} HarmlessArrives(xs: seq<Item>, files: Files)
    requires AllClean(xs)
    requires forall x :: x in xs && '@' in x.path ==> !Openable(x.path, files)
    ensures |Arrived(xs, files)| >= |Wanted(xs, files)|
    ensures |Arrived(xs, files)| == |Wanted(xs, files)| ==> forall x :: x in xs ==> Harmless(x, files)
    ensures (forall x :: x in xs ==> Harmless(x, files)) ==> Arrived(xs, files) == Wanted(xs, files)
  {
    if xs != [] {
      var p := xs[0].path;
      assert xs[0] in xs;
      assert xs == [xs[0]] + xs[1..];
      HarmlessArrives(xs[1..], files);
      if '@' !in p {
        IndexOfUnique(p, '@', |p|);
        assert p[..|p|] == p;
      }
    }
  }

  lemma {:induction false} ArrivedUnmarked(xs: seq<Item>, files: Files)
    ensures forall e :: e in Arrived(xs, files) ==> '@' !in e.path
  {
    if xs != [] {
      ArrivedUnmarked(xs[1..], files);
    }
  }

  lemma {:induction false} WantedHas(xs: seq<Item>, x: Item, files: Files)
    requires AllClean(xs) && x in xs && Openable(x.path, files)
    ensures Entry(x.path, files(x.path).value, TypeOf([x.kind])) in Wanted(xs, files)
  {
    if xs[0] != x {
      assert xs == [xs[0]] + xs[1..];
      WantedHas(xs[1..], x, files);
    }
  }

  /** With type characters that do not end the text, the replica is what the user asked for
      exactly when every '@' is harmless. */
  lemma ExactIffHarmless(xs: seq<Item>, files: Files)
    requires AllClean(xs) && Unbroken(xs)
    ensures Replica(xs, files) == Wanted(xs, files) <==> forall x :: x in xs ==> Harmless(x, files)
  {
    UnbrokenCarriesAll(xs);
    if x :| x in xs && '@' in x.path && Openable(x.path, files) {
      ArrivedUnmarked(xs, files);
      WantedHas(xs, x, files);
    } else {
      HarmlessArrives(xs, files);
    }
  }

  /** With '@'-free paths, it is exactly when nothing openable follows the first breaking type. */
  lemma ExactIffNothingLost(xs: seq<Item>, files: Files)
    requires AllClean(xs) && Unmarked(xs)
    ensures Carried(xs) <= xs
    ensures Replica(xs, files) == Wanted(xs, files) <==>
            forall x :: x in xs[|Carried(xs)|..] ==> !Openable(x.path, files)
  {
    hide *;
    CarriedPrefix(xs);
    var kept, lost := Carried(xs), xs[|Carried(xs)|..];
    assert xs == kept + lost;
    UnmarkedFront(kept, lost);
    UnmarkedArrives(kept, files);
    WantedAppend(kept, lost, files);
    WantedNothing(lost, files);
    ReplicaIs(xs, files);
  }

  lemma UnmarkedFront(xs: seq<Item>, ys: seq<Item>)
    requires Unmarked(xs + ys)
    ensures Unmarked(xs)
  {
    assert forall x :: x in xs ==> x in xs + ys;
  }

  lemma ReplicaIs(xs: seq<Item>, files: Files)
    ensures Replica(xs, files) == Arrived(Carried(xs), files)
  {
  }

  lemma {:induction false} CarriedPrefix(xs: seq<Item>)
    ensures Carried(xs) <= xs
  {
    if xs != [] {
      CarriedPrefix(xs[1..]);
    }
  }

  lemma {:induction false} WantedAppend(xs: seq<Item>, ys: seq<Item>, files: Files)
    ensures Wanted(xs + ys, files) == Wanted(xs, files) + Wanted(ys, files)
  {
    if xs == [] {
      assert xs + ys == ys;
    } else {
      assert (xs + ys)[1..] == xs[1..] + ys;
      WantedAppend(xs[1..], ys, files);
    }
  }

  lemma {:induction false} WantedNothing(xs: seq<Item>, files: Files)
    ensures Wanted(xs, files) == [] <==> forall x :: x in xs ==> !Openable(x.path, files)
  {
    hide Openable, Stored, TypeOf;
    if xs != [] {
      WantedNothing(xs[1..], files);
      NoneOpenable(xs, files);
      assert Wanted(xs, files) == [] <==> !Openable(xs[0].path, files) && Wanted(xs[1..], files) == [];
    }
  }

  lemma NoneOpenable(xs: seq<Item>, files: Files)
    requires xs != []
    ensures (forall x :: x in xs ==> !Openable(x.path, files)) <==>
            !Openable(xs[0].path, files) && forall x :: x in xs[1..] ==> !Openable(x.path, files)
  {
    hide Openable;
    assert xs == [xs[0]] + xs[1..];
    assert forall x :: x in xs <==> x == xs[0] || x in xs[1..];
  }

  /** Which entries the user's list asks for, entry by entry. */
  lemma {:induction false} WantedIff(xs: seq<Item>, e: Entry, files: Files)
    requires AllClean(xs)
    ensures e in Wanted(xs, files) <==>
            exists x :: x in xs && Openable(x.path, files) &&
                        e == Entry(x.path, files(x.path).value, TypeOf([x.kind]))
  {
    if xs != [] {
      WantedIff(xs[1..], e, files);
      assert xs == [xs[0]] + xs[1..];
      assert xs[0] in xs;
    }
  }

  /** Every entry of a replica that has a type comes from an item, unchanged. */
  lemma {:induction false} ArrivedFromItems(xs: seq<Item>, e: Entry, files: Files)
    requires AllClean(xs) && e in Arrived(xs, files) && e.ptype != NoType
    ensures exists x :: x in xs && Openable(x.path, files) &&
                        e == Entry(x.path, files(x.path).value, TypeOf([x.kind]))
  {
    if e in Arrives(xs[0], files) {
      ArrivesUnchanged(xs[0], e, files);
    } else {
      ArrivedFromItems(xs[1..], e, files);
    }
  }

  lemma MarkedArrivesUntyped(x: Item, files: Files)
    requires '@' in x.path
    ensures forall e :: e in Arrives(x, files) ==> e.ptype == NoType
  {
    MarkedCut(x.path);
    var rest := x.path[IndexOf(x.path, '@') + 1..];
    TypeWithMark(rest, [x.kind]);
    assert rest + ['@', x.kind] == rest + ['@'] + [x.kind];
  }

  lemma ArrivesUnchanged(x: Item, e: Entry, files: Files)
    requires Clean(x.path) && e in Arrives(x, files) && e.ptype != NoType
    ensures Openable(x.path, files) && e == Entry(x.path, files(x.path).value, TypeOf([x.kind]))
  {
    MarkedCut(x.path);
    if '@' in x.path {
      MarkedArrivesUntyped(x, files);
    } else {
      assert x.path[..|x.path|] == x.path;
    }
  }

  lemma ReplicaFromItems(xs: seq<Item>, e: Entry, files: Files)
    requires AllClean(xs) && e in Replica(xs, files) && e.ptype != NoType
    ensures exists x :: x in xs && Openable(x.path, files) &&
                        e == Entry(x.path, files(x.path).value, TypeOf([x.kind]))
  {
    CarriedPrefix(xs);
    ArrivedFromItems(Carried(xs), e, files);
  }

  // ---------------------------------------------------------- where it goes wrong

  /** One openable path with an '@', and the kernel does not get what was asked for. */
  lemma MarkedPathIsLost(x: Item, files: Files)
    requires Clean(x.path) && '@' in x.path && Openable(x.path, files) && !BreaksText(x.kind)
    ensures Replica([x], files) != Wanted([x], files)
  {
    assert x in [x];
    ExactIffHarmless([x], files);
  }

  /** A newline as type character loses the item behind it. */
  lemma BrokenTypeLosesNext(x: Item, y: Item, files: Files)
    requires Clean(x.path) && Clean(y.path) && '@' !in x.path && '@' !in y.path
    requires x.kind == '\n' && Openable(y.path, files)
    ensures Replica([x, y], files) != Wanted([x, y], files)
  {
    assert Carried([x, y]) == [x] && [x, y][1..] == [y] && y in [y];
    ExactIffNothingLost([x, y], files);
  }

  /** Of a path that is too long for its field the first 256 characters are stored, without a NUL. */
  lemma LongPathStored(path: string, kind: char, files: Files)
    requires |path| >= 256 && '@' !in path && '\n' !in path && files(path).Some? && kind != '\n'
    ensures Parse(path + ['@', kind], files) ==
            Parsed([Entry(path[..256], files(path).value, TypeOf([kind]))], false)
  {
    LongPathEntry(path, [kind], files);
    hide *;
    assert path + ['@', kind] == path + ['@'] + [kind];
    LineCut(path, [kind], files);
    ParseLastLine(path + ['@'] + [kind], files);
  }

  lemma LongPathEntry(path: string, kind: string, files: Files)
    requires |path| >= 256 && files(path).Some?
    ensures EntryFor(path, kind, files) == [Entry(path[..256], files(path).value, TypeOf(kind))]
  {
    assert |path| == 256 ==> path[..256] == path;
  }

  /** The name of an openable file, alone on a line, reaches the null pointer. */
  lemma BareNameFaults(name: string, files: Files)
    requires '\n' !in name && '@' !in name && Openable(name, files)
    ensures Parse(name, files) == Parsed([], true) && Parse(name + "\n", files) == Parsed([], true)
  {
    IndexOfUnique(name, '\n', |name|);
    IndexOfAppend(name, "\n", '\n');
    assert name[..|name|] == name && (name + "\n")[..|name|] == name;
  }
}
