/** What the hooks refuse and what directories show, in terms of the list the user delivered last. */
module Enforcement {
  import opened CStrings
  import opened Client
  import opened Components
  import opened Crashes
  import opened Dirents
  import opened FilterLaws
  import opened KernelState
  import opened Locks
  import opened Paths
  import opened ProtectList
  import opened Resolution
  import opened Runs
  import opened WireFormat

  // ------------------------------------------------------ what the list asks for

  /** An item of the user's list that the kernel would match. */
  predicate Asks(x: Item, q: Query, t: ProtectType, files: Files) {
    Openable(x.path, files) && Matches(Entry(x.path, files(x.path).value, TypeOf([x.kind])), q, t)
  }

  /** The kernel's list is exactly what the user's list asks for. */
  ghost predicate Mirrors(k: KState, xs: seq<Item>, files: Files) {
    AllClean(xs) && k.entries == Wanted(xs, files)
  }

  /** After any run this is so for the list delivered last, if it has no '@' in a path and no type
      character that ends the text. */
  lemma RunMirrors(es: seq<Event>, env: Env)
    requires ClientOnly(es, env) && !Run(START, es, env).crashed
    ensures var xs := LastDelivered(es, env);
      Unmarked(xs) && Unbroken(xs) ==> Mirrors(Run(START, es, env).kernel, xs, env.files)
  {
    var xs := LastDelivered(es, env);
    ReplicaAgreement(es, env);
    if Unmarked(xs) && Unbroken(xs) {
      UnbrokenCarriesAll(xs);
      UnmarkedArrives(xs, env.files);
    }
  }

  /** Then a lookup succeeds exactly when some item of the user's list matches. */
  lemma ProtectedIffAsked(k: KState, xs: seq<Item>, q: Query, t: ProtectType, files: Files)
    requires Mirrors(k, xs, files)
    ensures Protected(k.entries, q, t) <==> exists x :: x in xs && Asks(x, q, t, files)
  {
    ProtectedIff(k.entries, q, t);
    if e :| e in k.entries && Matches(e, q, t) {
      WantedIff(xs, e, files);
      var x :| x in xs && Openable(x.path, files) &&
               e == Entry(x.path, files(x.path).value, TypeOf([x.kind]));
      assert Asks(x, q, t, files);
    }
    if x :| x in xs && Asks(x, q, t, files) {
      WantedHas(xs, x, files);
    }
  }

  /** The letter of a type: the only text that the parser reads as that type. */
  function Letter(t: ProtectType): (c: char)
    requires t != NoType
    ensures TypeOf([c]) == t
  {
    match t
    case Read => 'r'
    case Write => 'w'
    case Hide => 'h'
    case Open => 'o'
    case Delete => 'd'
    case Rename => 'n'
    case Mkdir => 'm'
  }

  lemma TypeLetters(c: char, t: ProtectType)
    requires t != NoType
    ensures TypeOf([c]) == t <==> c == Letter(t)
  {
    assert [c][0] == c;
  }

  /** No other text means anything, longer ones and the empty one included. */
  lemma TypeTexts(s: string, t: ProtectType)
    requires t != NoType
    ensures TypeOf(s) == t <==> s == [Letter(t)]
    ensures |s| != 1 ==> TypeOf(s) == NoType
  {
    if |s| == 1 {
      assert s == [s[0]];
      TypeLetters(s[0], t);
    }
  }

  // ------------------------------------------------------------------ by path

  /** The user's list holds this path, as an openable one, with this letter. */
  predicate Lists(xs: seq<Item>, path: string, kind: char, files: Files) {
    Openable(path, files) && Item(path, kind) in xs
  }

  lemma PathProtectedIff(k: KState, xs: seq<Item>, path: string, t: ProtectType, files: Files)
    requires Mirrors(k, xs, files) && t != NoType
    ensures Protected(k.entries, ByPath(path), t) <==> Lists(xs, path, Letter(t), files)
  {
    ProtectedIffAsked(k, xs, ByPath(path), t, files);
    forall x | x in xs
      ensures Asks(x, ByPath(path), t, files) <==> x == Item(path, Letter(t)) && Openable(path, files)
    {
      TypeLetters(x.kind, t);
    }
  }

  /** What a path hook returns: it crashes for a path too long for its buffer, and for a listed one too long
      for its message; else it refuses exactly the listed text with its letter. */
  lemma PathAnswer(k: KState, xs: seq<Item>, call: Syscall, original: int, files: Files)
    requires Mirrors(k, xs, files) && !call.GetdentsCall? && !ByDescriptor(call)
    ensures var text := QueryOf(call).path;
      ResultOf(k, call, original) ==
        if PathTooLong(call) then Crashed
        else if !Lists(xs, text, Letter(TypeAsked(call)), files) then Returned(original)
        else if |text| > LongestReported(TypeAsked(call)) then Crashed
        else Returned(-13)
  {
    var q, t := QueryOf(call), TypeAsked(call);
    PathOverflowsIff(call);
    PathProtectedIff(k, xs, q.path, t, files);
    PathLookupFailsIff(k, xs, q.path, t, files);
    hide Match, Lists, Wanted, ParentOf, LookupFails, PathOverflows, LongestReported, Protected, TypeAsked, Mirrors;
  }

  lemma PathLookupFailsIff(k: KState, xs: seq<Item>, path: string, t: ProtectType, files: Files)
    requires Mirrors(k, xs, files)
    ensures var q := ByPath(path);
      LookupFails(k.entries, q, t) <==> Protected(k.entries, q, t) && |path| > LongestReported(t)
  {
    var q := ByPath(path);
    MirrorsShortPaths(k, xs, files);
    FailsIffTrips(k.entries, q, t);
    FindsLongIff(k.entries, q, t);
    hide Match, Wanted, LookupFails, FindsLong, LongestReported;
    assert !WalksPast(k.entries, q, t);
    if Protected(k.entries, q, t) {
      assert Matches(k.entries[Match(k.entries, q, t)], q, t);
    }
  }

  lemma MirrorsShortPaths(k: KState, xs: seq<Item>, files: Files)
    requires Mirrors(k, xs, files)
    ensures forall i :: 0 <= i < |k.entries| ==> |k.entries[i].path| < 256
  {
    forall i | 0 <= i < |k.entries|
      ensures |k.entries[i].path| < 256
    {
      WantedIff(xs, k.entries[i], files);
    }
  }

  /** `mkdir` of a simple name is refused exactly when the list holds the working directory with 'm'. */
  lemma MkdirAnswer(k: KState, xs: seq<Item>, cwd: string, name: string, original: int, files: Files)
    requires Mirrors(k, xs, files) && Simple(name)
    ensures ResultOf(k, MkdirCall(cwd, name), original) ==
      if |cwd| + 1 + |name| >= 4096 then Crashed
      else if !Lists(xs, cwd, 'm', files) then Returned(original)
      else if |cwd| > 243 then Crashed
      else Returned(-13)
  {
    hide ResultOf, Lists, Mirrors, ParentOf, Simple;
    ParentOfSimple(cwd, name);
    PathAnswer(k, xs, MkdirCall(cwd, name), original, files);
  }

  /** Deleting and renaming look for the working directory, a slash and the path; changing directory
      looks for the path as typed. */
  lemma PathAnswers(k: KState, xs: seq<Item>, call: Syscall, original: int, files: Files)
    requires Mirrors(k, xs, files)
    ensures match call
      case UnlinkCall(cwd, path) => ResultOf(k, call, original) ==
        if |cwd| + 1 + |path| >= 4096 then Crashed
        else if !Lists(xs, cwd + "/" + path, 'd', files) then Returned(original)
        else if |cwd| + 1 + |path| > 242 then Crashed
        else Returned(-13)
      case UnlinkatCall(cwd, path) => ResultOf(k, call, original) ==
        if |cwd| + 1 + |path| >= 4096 then Crashed
        else if !Lists(xs, cwd + "/" + path, 'd', files) then Returned(original)
        else if |cwd| + 1 + |path| > 242 then Crashed
        else Returned(-13)
      case RenameCall(cwd, path, newPath) => ResultOf(k, call, original) ==
        if |cwd| + 1 + |path| >= 4096 || |cwd| + 1 + |newPath| >= 4096 then Crashed
        else if !Lists(xs, cwd + "/" + path, 'n', files) then Returned(original)
        else if |cwd| + 1 + |path| > 242 then Crashed
        else Returned(-13)
      case ChdirCall(path) => ResultOf(k, call, original) ==
        if |path| >= 4096 then Crashed
        else if !Lists(xs, path, 'h', files) then Returned(original)
        else if |path| > 244 then Crashed
        else Returned(-13)
      case _ => true
  {
    hide Lists, Mirrors, ResultOf;
    if !call.GetdentsCall? && !ByDescriptor(call) {
      PathAnswer(k, xs, call, original, files);
    }
  }

  /** End to end: the state after any run, for the list delivered last. */
  lemma MkdirEnforced(es: seq<Event>, cwd: string, name: string, original: int, env: Env)
    requires ClientOnly(es, env) && Simple(name) && !Run(START, es + [Call(MkdirCall(cwd, name))], env).crashed
    ensures var k := Run(START, es, env).kernel; var xs := LastDelivered(es, env);
      Unmarked(xs) && Unbroken(xs) ==>
        ResultOf(k, MkdirCall(cwd, name), original) ==
          if Lists(xs, cwd, 'm', env.files) then Returned(-13) else Returned(original)
  {
    hide Lists, Unmarked, Unbroken, Mirrors;
    var w, xs := Run(START, es, env), LastDelivered(es, env);
    NextCall(es, MkdirCall(cwd, name), env);
    RunMirrors(es, env);
    if Unmarked(xs) && Unbroken(xs) {
      MkdirAnswer(w.kernel, xs, cwd, name, original, env.files);
    }
  }

  lemma NextCall(es: seq<Event>, call: Syscall, env: Env)
    requires !Run(START, es + [Call(call)], env).crashed
    ensures !Run(START, es, env).crashed && Decide(Run(START, es, env).kernel, call) != Fault
  {
    hide Decide, Run;
    RunSnoc(START, es, Call(call), env);
  }

  /** The same for the list on the user's screen: it is the one enforced, as long as nobody lists a proc
      file with 'w' and no command has emptied the kernel's list since the last edit. */
  lemma MkdirEnforcedAsEdited(es: seq<Event>, cwd: string, name: string, original: int, env: Env)
    requires ClientOnly(es, env) && Simple(name) && !Run(START, es + [Call(MkdirCall(cwd, name))], env).crashed
    requires Free(es, env) && !Emptied(es, env) && Unmarked(Edited(es)) && Unbroken(Edited(es))
    ensures ResultOf(Run(START, es, env).kernel, MkdirCall(cwd, name), original) ==
      if Lists(Edited(es), cwd, 'm', env.files) then Returned(-13) else Returned(original)
  {
    hide Lists, Decide, Unmarked, Unbroken, Emptied, Free, ResultOf;
    NextCall(es, MkdirCall(cwd, name), env);
    FreeRunsDeliver(es, env);
    MkdirEnforced(es, cwd, name, original, env);
  }

  /** A directory is listed as well by a line that ends in a slash, a blank, or a slash and a blank: when such
      a line is the last edit, `mkdir` in the directory is refused. */
  lemma TypedDirectoryEnforced(es: seq<Event>, cwd: string, ending: string, name: string, original: int, env: Env)
    requires ending in {"", "/", " ", "/ "}
    requires cwd != "" && cwd[|cwd| - 1] != '/' && cwd[|cwd| - 1] != ' ' && env.files(cwd).Some?
    requires var all := es + [Add(cwd + ending, 'm')];
      ClientOnly(all, env) && Free(all, env) && Unmarked(Edited(all)) && Unbroken(Edited(all)) &&
      !Run(START, all + [Call(MkdirCall(cwd, name))], env).crashed
    requires Simple(name)
    ensures var all := es + [Add(cwd + ending, 'm')];
      ResultOf(Run(START, all, env).kernel, MkdirCall(cwd, name), original) == Returned(-13)
  {
    hide Run, Decide, Unmarked, Unbroken, Free, ClientOnly, ResultOf, Simple;
    var all := es + [Add(cwd + ending, 'm')];
    EditedLast(es, cwd, ending, env);
    hide Edited, Emptied, Normalized;
    MkdirEnforcedAsEdited(all, cwd, name, original, env);
  }

  lemma EditedLast(es: seq<Event>, p: string, ending: string, env: Env)
    requires ending in {"", "/", " ", "/ "}
    requires p != "" && p[|p| - 1] != '/' && p[|p| - 1] != ' '
    ensures var all := es + [Add(p + ending, 'm')];
      Item(p, 'm') in Edited(all) && !Emptied(all, env)
  {
    var last := Add(p + ending, 'm');
    assert p + "" == p;
    NormalizedEndings(p);
    hide Normalized;
    assert (es + [last])[..|es|] == es;
    assert Edited(es + [last]) == Edited(es) + [Item(p, 'm')];
  }

  // ------------------------------------------------------- by the place a path means

  /** Every openable path listed with this letter is the canonical text of a place. */
  ghost predicate ListsCanonically(xs: seq<Item>, kind: char, files: Files) {
    forall x :: x in xs && x.kind == kind && Openable(x.path, files) ==>
      exists place :: PlainNames(place) && x.path == Canonical(place)
  }

  /** The place meant is listed. */
  predicate ListsPlace(xs: seq<Item>, dir: seq<string>, path: string, kind: char, files: Files) {
    Lists(xs, Canonical(Meaning(dir, path)), kind, files)
  }

  lemma BuiltPathListedIff(xs: seq<Item>, dir: seq<string>, path: string, kind: char, files: Files)
    requires ListsCanonically(xs, kind, files) && PlainNames(dir)
    ensures Lists(xs, FullPath(Canonical(dir), path), kind, files) <==>
            dir != [] && PlainNames(Split(path)) && ListsPlace(xs, dir, path, kind, files)
  {
    var full := FullPath(Canonical(dir), path);
    FullPathCanonicalIff(dir, path);
    if Lists(xs, full, kind, files) {
      var place :| PlainNames(place) && full == Canonical(place);
      CanonicalFullPath(dir, path, place);
    }
  }

  /** A process in `dir` deletes or renames a listed place: unless the call crashes it is refused exactly
      when the process is not in the root directory and types plain names. */
  lemma DeletionByMeaning(k: KState, xs: seq<Item>, dir: seq<string>, call: Syscall, path: string,
                          original: int, files: Files)
    requires Mirrors(k, xs, files) && PlainNames(dir)
    requires ListsCanonically(xs, 'd', files) && ListsCanonically(xs, 'n', files)
    requires call == UnlinkCall(Canonical(dir), path) || call == UnlinkatCall(Canonical(dir), path) ||
             (call.RenameCall? && call.cwd == Canonical(dir) && call.path == path)
    ensures var kind := if call.RenameCall? then 'n' else 'd';
      ResultOf(k, call, original) != Crashed ==>
        ResultOf(k, call, original) ==
          if dir != [] && PlainNames(Split(path)) && ListsPlace(xs, dir, path, kind, files)
          then Returned(-13) else Returned(original)
  {
    hide ResultOf, Mirrors, Lists, PlainNames, Canonical, ListsCanonically, ListsPlace;
    BuiltPathListedIff(xs, dir, path, 'd', files);
    BuiltPathListedIff(xs, dir, path, 'n', files);
    PathAnswers(k, xs, call, original, files);
  }

  /** In particular a listed place can be deleted and renamed by its absolute path. */
  lemma AbsolutePathsPass(k: KState, xs: seq<Item>, dir: seq<string>, call: Syscall, path: string,
                          original: int, files: Files)
    requires Mirrors(k, xs, files) && PlainNames(dir) && "/" <= path
    requires ListsCanonically(xs, 'd', files) && ListsCanonically(xs, 'n', files)
    requires call == UnlinkCall(Canonical(dir), path) || call == UnlinkatCall(Canonical(dir), path) ||
             (call.RenameCall? && call.cwd == Canonical(dir) && call.path == path)
    ensures ResultOf(k, call, original) == if PathTooLong(call) then Crashed else Returned(original)
  {
    hide ResultOf, Mirrors, Lists, Canonical, ListsCanonically, ListsPlace;
    BuiltPathListedIff(xs, dir, path, 'd', files);
    BuiltPathListedIff(xs, dir, path, 'n', files);
    PathAnswers(k, xs, call, original, files);
    SplitFirst("", path[1..]);
    assert path == "" + "/" + path[1..];
    assert Split(path)[0] == "" && Split(path)[0] in Split(path);
  }

  /** Entering a hidden place is refused exactly when its canonical text is typed. */
  lemma ChdirByMeaning(k: KState, xs: seq<Item>, dir: seq<string>, path: string, original: int, files: Files)
    requires Mirrors(k, xs, files) && ListsCanonically(xs, 'h', files)
    ensures ResultOf(k, ChdirCall(path), original) != Crashed ==>
      ResultOf(k, ChdirCall(path), original) ==
        if path == Canonical(Meaning(dir, path)) && ListsPlace(xs, dir, path, 'h', files)
        then Returned(-13) else Returned(original)
  {
    hide ResultOf, Mirrors;
    PathAnswers(k, xs, ChdirCall(path), original, files);
    if Lists(xs, path, 'h', files) {
      var place :| PlainNames(place) && path == Canonical(place);
      MeaningOfCanonical(dir, place);
    }
  }

  /** `mkdir` below a subdirectory: refused exactly when the names that lead there are plain, the process
      is not in the root directory, and the place they mean is listed. */
  lemma MkdirByMeaning(k: KState, xs: seq<Item>, dir: seq<string>, path: string, original: int, files: Files)
    requires Mirrors(k, xs, files) && PlainNames(dir) && ListsCanonically(xs, 'm', files)
    requires |Split(Untrailed(path))| > 1
    ensures var names := Split(Untrailed(path)); var above := names[..|names| - 1];
      ResultOf(k, MkdirCall(Canonical(dir), path), original) != Crashed ==>
        ResultOf(k, MkdirCall(Canonical(dir), path), original) ==
          if dir != [] && PlainNames(above) && ListsPlace(xs, dir, Join(above), 'm', files)
          then Returned(-13) else Returned(original)
  {
    hide ResultOf, Lists, Mirrors, PlainNames, Canonical, ListsCanonically, ListsPlace, ParentOf;
    var names := Split(Untrailed(path));
    var above := names[..|names| - 1];
    JoinSplit(Untrailed(path));
    SplitJoin(above);
    ParentByNames(Canonical(dir), path);
    PathAnswer(k, xs, MkdirCall(Canonical(dir), path), original, files);
    BuiltPathListedIff(xs, dir, Join(above), 'm', files);
  }

  // ------------------------------------------------------------ by descriptor

  /** The user's list holds, with this letter, some path that leads to this inode. */
  ghost predicate ListsInode(xs: seq<Item>, inode: Inode, kind: char, files: Files) {
    exists x :: x in xs && x.kind == kind && Openable(x.path, files) && files(x.path).value == inode
  }

  lemma InodeProtectedIff(k: KState, xs: seq<Item>, inode: Inode, t: ProtectType, files: Files)
    requires Mirrors(k, xs, files) && t != NoType
    ensures Protected(k.entries, ByInode(inode), t) <==> ListsInode(xs, inode, Letter(t), files)
  {
    ProtectedIffAsked(k, xs, ByInode(inode), t, files);
    forall x | x in xs
      ensures Asks(x, ByInode(inode), t, files) <==>
              x.kind == Letter(t) && Openable(x.path, files) && files(x.path).value == inode
    {
      TypeLetters(x.kind, t);
    }
  }

  /** Reading and writing go by the inode, and only while protection is switched on; a closed descriptor
      crashes then, and so does a match whose path is too long for its message. */
  lemma DescriptorAnswers(k: KState, xs: seq<Item>, fd: Option<Inode>, text: string, original: int, files: Files)
    requires Mirrors(k, xs, files)
    ensures ResultOf(k, ReadCall(fd), original) ==
      if !k.enabled then Returned(original)
      else if fd == None then Crashed
      else if !ListsInode(xs, fd.value, 'r', files) then Returned(original)
      else if FindsLong(k.entries, ByInode(fd.value), Read) then Crashed
      else Returned(-13)
    ensures ResultOf(k, WriteCall(fd, text), original) ==
      if !k.enabled then Returned(original)
      else if fd == None then Crashed
      else if !ListsInode(xs, fd.value, 'w', files) then Returned(original)
      else if FindsLong(k.entries, ByInode(fd.value), Write) then Crashed
      else Returned(-13)
  {
    if fd.Some? {
      InodeAnswer(k, xs, fd.value, Read, files);
      InodeAnswer(k, xs, fd.value, Write, files);
    }
    hide Protected, LookupFails, ListsInode, Wanted, FindsLong;
  }

  lemma InodeAnswer(k: KState, xs: seq<Item>, inode: Inode, t: ProtectType, files: Files)
    requires Mirrors(k, xs, files) && t != NoType
    ensures Protected(k.entries, ByInode(inode), t) <==> ListsInode(xs, inode, Letter(t), files)
    ensures LookupFails(k.entries, ByInode(inode), t) <==> FindsLong(k.entries, ByInode(inode), t)
    ensures FindsLong(k.entries, ByInode(inode), t) ==> Protected(k.entries, ByInode(inode), t)
  {
    InodeProtectedIff(k, xs, inode, t, files);
    FailsIffTrips(k.entries, ByInode(inode), t);
    FindsLongIff(k.entries, ByInode(inode), t);
  }

  // ---------------------------------------------------------------- listings

  /** The inode numbers that the user's list hides. */
  ghost predicate HiddenByUser(xs: seq<Item>, ino: nat, files: Files) {
    exists x :: x in xs && x.kind == 'h' && Openable(x.path, files) && files(x.path).value.ino == ino
  }

  lemma HiddenIffAsked(k: KState, xs: seq<Item>, ino: nat, files: Files)
    requires Mirrors(k, xs, files)
    ensures ino in HiddenNumbers(k.entries) <==> HiddenByUser(xs, ino, files)
  {
    HiddenIffProtected(k.entries, ino);
    ProtectedIffAsked(k, xs, ByNumber(ino), Hide, files);
    forall x | x in xs
      ensures Asks(x, ByNumber(ino), Hide, files) <==>
              x.kind == 'h' && Openable(x.path, files) && files(x.path).value.ino == ino
    {
      TypeLetters(x.kind, Hide);
    }
  }

  /** Records of these inode numbers. */
  ghost predicate Numbered(rs: seq<Record>, ns: seq<nat>) {
    |rs| == |ns| && forall i :: 0 <= i < |rs| ==> Spells(rs[i].ino, ns[i])
  }

  /** What the user's list leaves of a directory's records; numbers are compared in 32 bits. */
  ghost function UserFilter(rs: seq<Record>, ns: seq<nat>, xs: seq<Item>, files: Files): seq<Record>
    requires |rs| == |ns|
  {
    if rs == [] then []
    else
      (if HiddenByUser(xs, ns[0] % 0x1_0000_0000, files) then [] else [rs[0]]) +
      UserFilter(rs[1..], ns[1..], xs, files)
  }

  lemma {:induction false} UserFilterIsVisible(k: KState, rs: seq<Record>, ns: seq<nat>, xs: seq<Item>, files: Files)
    requires Mirrors(k, xs, files) && Numbered(rs, ns)
    ensures Visible(rs, HiddenNumbers(k.entries)) == UserFilter(rs, ns, xs, files)
  {
    if rs != [] {
      InoOfNumber(rs[0], ns[0]);
      HiddenIffAsked(k, xs, rs[0].Ino(), files);
      UserFilterIsVisible(k, rs[1..], ns[1..], xs, files);
    }
  }

  /** A directory read shows, in order, exactly the records whose number the user's list does not hide. */
  lemma ListingVerdict(k: KState, xs: seq<Item>, data: seq<Byte>, ns: seq<nat>, files: Files)
    requires Mirrors(k, xs, files)
    requires Tiled(data) && RunsFit(Records(data), HiddenNumbers(k.entries)) && Numbered(Records(data), ns)
    ensures var shown := Filtered(data, HiddenNumbers(k.entries));
      Tiled(shown) && Views(Records(shown)) == Views(UserFilter(Records(data), ns, xs, files))
  {
    var hidden := HiddenNumbers(k.entries);
    DecodesIffRunsFit(data, hidden);
    MergedShowsVisible(Records(data), hidden);
    UserFilterIsVisible(k, Records(data), ns, xs, files);
  }
}
