/** When a run crashes: exactly which events make the code leave a buffer or use a null pointer. */
module Crashes {
  import opened CStrings
  import opened Client
  import opened Dirents
  import opened KernelState
  import opened Locks
  import opened Paths
  import opened ProtectList
  import opened Runs
  import opened WireFormat

  // ---------------------------------------------------------------- lookups

  /** The longest path whose message, for this type, fits its buffer with a NUL. */
  function LongestReported(t: ProtectType): nat {
    match t
    case NoType => 249
    case Read => 244
    case Write => 243
    case Hide => 244
    case Rename => 242
    case Open => 244
    case Delete => 242
    case Mkdir => 243
  }

  /** The first entry that matches has a path too long for its message. */
  ghost predicate FindsLong(es: seq<Entry>, q: Query, t: ProtectType) {
    exists i :: 0 <= i < |es| && Matches(es[i], q, t) && |es[i].path| > LongestReported(t) &&
                forall j :: 0 <= j < i ==> !Matches(es[j], q, t)
  }

  ghost predicate PathsUpTo(es: seq<Entry>, n: nat) {
    forall i :: 0 <= i < |es| ==> |es[i].path| <= n
  }

  /** No entry matches before one that fills its 256 bytes and begins the path asked for. */
  ghost predicate WalksPast(es: seq<Entry>, q: Query, t: ProtectType) {
    q.ByPath? &&
    exists i :: 0 <= i < |es| && |es[i].path| >= 256 && es[i].path <= q.path &&
                forall j :: 0 <= j < i ==> !Matches(es[j], q, t)
  }

  ghost predicate Trips(es: seq<Entry>, q: Query, t: ProtectType) {
    FindsLong(es, q, t) || WalksPast(es, q, t)
  }

  /** The lookups that leave a buffer, for any list. */
  lemma FailsIffTrips(es: seq<Entry>, q: Query, t: ProtectType)
    ensures LookupFails(es, q, t) <==> Trips(es, q, t)
  {
    hide Match, Matches, FindsLong, WalksPast, LongestReported, Overlong, ReadPast;
    var k := Match(es, q, t);
    FindsLongIff(es, q, t);
    WalksPastIff(es, q, t);
    if k < |es| {
      OverlongIff(es[k]);
    }
  }

  lemma WalksPastIff(es: seq<Entry>, q: Query, t: ProtectType)
    ensures var k := Match(es, q, t);
      WalksPast(es, q, t) <==> exists j :: 0 <= j < |es| && j <= k && ReadPast(es[j], q)
  {
    hide Matches, Match;
    if WalksPast(es, q, t) {
      var i :| 0 <= i < |es| && |es[i].path| >= 256 && es[i].path <= q.path &&
               forall j :: 0 <= j < i ==> !Matches(es[j], q, t);
      MatchFrom(es, q, t, i);
      assert ReadPast(es[i], q);
    }
  }

  lemma FindsLongIff(es: seq<Entry>, q: Query, t: ProtectType)
    ensures var k := Match(es, q, t);
      (k < |es| ==> es[k].ptype == t) &&
      (FindsLong(es, q, t) <==> k < |es| && |es[k].path| > LongestReported(t))
  {
    if FindsLong(es, q, t) {
      var i :| 0 <= i < |es| && Matches(es[i], q, t) && |es[i].path| > LongestReported(t) &&
               forall j :: 0 <= j < i ==> !Matches(es[j], q, t);
      MatchIs(es, q, t, i);
    }
  }

  lemma OverlongIff(e: Entry)
    ensures Overlong(e) <==> |e.path| > LongestReported(e.ptype)
  {
  }

  lemma ShortNeverTrips(es: seq<Entry>, q: Query, t: ProtectType)
    requires PathsUpTo(es, 242)
    ensures !Trips(es, q, t)
  {
  }

  // ------------------------------------------------------------------ events

  ghost predicate WriteBreaks(k: KState, file: Inode) {
    k.enabled && Trips(k.entries, ByInode(file), Write)
  }

  /** A built or typed path too long for its 4096 bytes. */
  predicate PathTooLong(call: Syscall) {
    match call
    case MkdirCall(cwd, path) => |cwd| + 1 + |path| >= 4096
    case UnlinkCall(cwd, path) => |cwd| + 1 + |path| >= 4096
    case UnlinkatCall(cwd, path) => |cwd| + 1 + |path| >= 4096
    case RenameCall(cwd, path, newPath) => |cwd| + 1 + |path| >= 4096 || |cwd| + 1 + |newPath| >= 4096
    case ChdirCall(path) => |path| >= 4096
    case _ => false
  }

  /** A path that overruns its buffer, a closed descriptor while protection is on, records that overrun
      theirs, or a lookup that leaves a buffer. */
  ghost predicate CallBreaks(k: KState, call: Syscall) {
    if call.GetdentsCall? then
      !Tiled(call.data) || exists x :: x in Records(call.data) && Trips(k.entries, ByNumber(x.Ino()), Hide)
    else if ByDescriptor(call) then
      k.enabled && (call.fd == None || Trips(k.entries, QueryOf(call), TypeAsked(call)))
    else PathTooLong(call) || Trips(k.entries, QueryOf(call), TypeAsked(call))
  }

  /** What reaches a proc file's handler is too long for its buffer, or, for the protect file, ends with an
      openable line without an '@'. */
  predicate HandlerBreaks(k: KState, call: Syscall, env: Env) {
    call.WriteCall? &&
    ((call.fd == Some(env.protectFile) && !Locked(k, env.protectFile) &&
       (|call.text| >= 65536 || EndsBadly(CString(call.text), env.files))) ||
     (call.fd == Some(env.ctrlFile) && !Locked(k, env.ctrlFile) && |call.text| >= 65536))
  }

  predicate EndsBadly(text: string, files: Files) {
    var ls := Lines(text);
    var n := Marked(ls);
    n < |ls| && Openable(ls[n], files)
  }

  /** An edit breaks by its own length, by the length of the list it makes, or by the length of the path
      that locks the protect file; a call by its hook or by what it hands to a proc file. */
  ghost predicate Breaks(w: World, e: Event, env: Env) {
    match e
    case Add(line, _) =>
      |line| > 256 || |Normalized(line)| >= 256 || !Fits(ItemsAfter(w.items, e)) ||
      WriteBreaks(w.kernel, env.protectFile)
    case Remove(_) => w.items != [] && WriteBreaks(w.kernel, env.protectFile)
    case Call(call) => CallBreaks(w.kernel, call) || HandlerBreaks(w.kernel, call, env)
  }

  ghost predicate Sound(xs: seq<Item>) { AllClean(xs) && Fits(xs) }

  lemma CallCrashesIff(k: KState, call: Syscall)
    ensures Decide(k, call) == Fault <==> CallBreaks(k, call)
  {
    PathOverflowsIff(call);
    hide LookupFails, Trips, Tiled, Records, PathOverflows;
    if call.GetdentsCall? {
      if Tiled(call.data) {
        forall x: Record
          ensures LookupFails(k.entries, ByNumber(x.Ino()), Hide) <==> Trips(k.entries, ByNumber(x.Ino()), Hide)
        {
          FailsIffTrips(k.entries, ByNumber(x.Ino()), Hide);
        }
      }
    } else if !(ByDescriptor(call) && call.fd == None) {
      FailsIffTrips(k.entries, QueryOf(call), TypeAsked(call));
    }
  }

  /** What a hook returns, in any state: -13 for a call that some entry matches, else the original result. */
  lemma AnswerOf(k: KState, call: Syscall, original: int)
    requires !call.GetdentsCall?
    ensures ResultOf(k, call, original) ==
      if CallBreaks(k, call) then Crashed
      else if (ByDescriptor(call) ==> k.enabled) &&
              exists e :: e in k.entries && Matches(e, QueryOf(call), TypeAsked(call))
      then Returned(-13)
      else Returned(original)
  {
    CallCrashesIff(k, call);
    if !(ByDescriptor(call) && call.fd == None) {
      ProtectedIff(k.entries, QueryOf(call), TypeAsked(call));
    }
    hide CallBreaks, Matches, Match, Protected, LookupFails, PathOverflows, QueryOf, TypeAsked;
  }

  /** The crashes of one step, exactly. */
  lemma StepCrashesIff(w: World, e: Event, env: Env)
    requires !w.crashed && Sound(w.items) && Typed(e)
    ensures Step(w, e, env).crashed <==> Breaks(w, e, env)
  {
    hide Decide, CallBreaks, LookupFails, Normalized, HandlerBreaks, WriteBreaks, Fits, Performed;
    if e.Call? {
      CallCrashes(w.kernel, e.call, env);
    } else if !(e.Add? && LineOverruns(e.line)) {
      ItemsStayClean(w.items, e);
      EditCrashesIff(w.kernel, ItemsAfter(w.items, e), env);
      if e.Remove? {
        WithoutFits(w.items, e.number);
      }
    }
  }

  lemma CallCrashes(k: KState, call: Syscall, env: Env)
    ensures Performed(k, call, env).crashed <==> CallBreaks(k, call) || HandlerBreaks(k, call, env)
  {
    hide Decide, CallBreaks, Locked, Parse, CString, Lines, Marked;
    CallCrashesIff(k, call);
    if call.WriteCall? {
      ArrivesIffUnlocked(k, env.protectFile, call.text);
      ArrivesIffUnlocked(k, env.ctrlFile, call.text);
      ParseByLines(CString(call.text), env.files);
      NothingEndsWell(env.files);
    }
  }

  lemma NothingEndsWell(files: Files)
    ensures !EndsBadly(CString(""), files)
  {
  }

  lemma WriteBreaksIff(k: KState, file: Inode, text: string)
    ensures CallBreaks(k, WriteCall(Some(file), text)) <==> WriteBreaks(k, file)
  {
  }

  lemma EditCrashesIff(k: KState, xs: seq<Item>, env: Env)
    requires AllClean(xs)
    ensures Transmitted(k, xs, env).crashed <==> !Fits(xs) || WriteBreaks(k, env.protectFile)
  {
    hide Decide, CallBreaks, LookupFails, PrintSize, WriteBreaks;
    if Fits(xs) {
      DeliveredReplica(k, xs, env);
      CallCrashesIff(k, Transmission(xs, env));
      WriteBreaksIff(k, env.protectFile, Transmission(xs, env).text);
    }
  }

  // -------------------------------------------------------------------- runs

  lemma {:induction false} ArrivedUpTo(xs: seq<Item>, files: Files, n: nat)
    requires forall i :: 0 <= i < |xs| ==> |xs[i].path| <= n
    ensures PathsUpTo(Arrived(xs, files), n)
  {
    if xs != [] {
      ArrivedUpTo(xs[1..], files, n);
    }
  }

  ghost predicate ItemsUpTo(xs: seq<Item>, n: nat) {
    forall i :: 0 <= i < |xs| ==> |xs[i].path| <= n
  }

  lemma AfterUpTo(xs: seq<Item>, e: Event, n: nat)
    requires ItemsUpTo(xs, n) && (e.Add? ==> |Normalized(e.line)| <= n)
    ensures ItemsUpTo(ItemsAfter(xs, e), n)
  {
  }

  lemma {:induction false} DeliveredUpTo(es: seq<Event>, env: Env, n: nat)
    requires forall i :: 0 <= i < |es| && es[i].Add? ==> |Normalized(es[i].line)| <= n
    requires !Run(START, es, env).crashed
    ensures ItemsUpTo(Edited(es), n) && ItemsUpTo(LastDelivered(es, env), n)
  {
    hide Delivers, Empties, Normalized, Step, ItemsAfter;
    if es != [] {
      var before, e := es[..|es| - 1], es[|es| - 1];
      CrashIsFinal(Run(START, before, env), e, env);
      DeliveredUpTo(before, env, n);
      ItemsAreEdited(before, env);
      AfterUpTo(Edited(before), e, n);
    }
  }

  /** Whatever is typed, the kernel's paths are as short as the typed ones. */
  lemma EntriesUpTo(es: seq<Event>, env: Env, n: nat)
    requires forall i :: 0 <= i < |es| && es[i].Add? ==> |Normalized(es[i].line)| <= n
    requires ClientOnly(es, env) && !Run(START, es, env).crashed
    ensures PathsUpTo(Run(START, es, env).kernel.entries, n)
  {
    var xs := LastDelivered(es, env);
    DeliveredUpTo(es, env, n);
    ReplicaAgreement(es, env);
    CarriedPrefix(xs);
    ArrivedUpTo(Carried(xs), env.files, n);
  }

  ghost predicate AllTyped(es: seq<Event>) {
    forall i :: 0 <= i < |es| ==> Typed(es[i])
  }

  lemma {:induction false} ItemsAreSound(es: seq<Event>, env: Env)
    requires AllTyped(es) && !Run(START, es, env).crashed
    ensures Sound(Run(START, es, env).items)
  {
    hide Decide, Print, Parse, CString, CommandOf, LineOverruns, Fits, Performed;
    if es == [] {
      UpTo254Fit([]);
    } else {
      var before, e := es[..|es| - 1], es[|es| - 1];
      CrashIsFinal(Run(START, before, env), e, env);
      ItemsAreSound(before, env);
      ItemsStayClean(Run(START, before, env).items, e);
    }
  }

  /** The event at this place breaks in the state it meets. */
  ghost predicate BreaksAt(es: seq<Event>, i: nat, env: Env)
    requires i < |es|
  {
    !Run(START, es[..i], env).crashed && Breaks(Run(START, es[..i], env), es[i], env)
  }

  /** Any run crashes exactly when one of its events breaks. */
  lemma {:induction false} RunCrashesIff(es: seq<Event>, env: Env)
    requires AllTyped(es)
    ensures Run(START, es, env).crashed <==> exists i :: 0 <= i < |es| && BreaksAt(es, i, env)
  {
    hide Breaks, Step;
    if i :| 0 <= i < |es| && BreaksAt(es, i, env) {
      BreakCrashes(es, i, env);
    }
    if Run(START, es, env).crashed {
      var n := |es| - 1;
      var before := es[..n];
      if Run(START, before, env).crashed {
        RunCrashesIff(before, env);
        var i :| 0 <= i < n && BreaksAt(before, i, env);
        assert before[..i] == es[..i];
        assert BreaksAt(es, i, env);
      } else {
        ItemsAreSound(before, env);
        StepCrashesIff(Run(START, before, env), es[n], env);
        assert BreaksAt(es, n, env);
      }
    }
  }

  lemma BreakCrashes(es: seq<Event>, i: nat, env: Env)
    requires AllTyped(es) && i < |es| && BreaksAt(es, i, env)
    ensures Run(START, es, env).crashed
  {
    hide Breaks, Step;
    var w := Run(START, es[..i], env);
    ItemsAreSound(es[..i], env);
    StepCrashesIff(w, es[i], env);
    assert es[..i + 1][..i] == es[..i];
    CrashedEarlier(START, es, i + 1, env);
  }

  // -------------------------------------------------------------- tame runs

  /** A path of at most 242 characters; an open descriptor; a full path that fits its buffer; records that
      tile theirs; a command that fits its own. */
  predicate Tame(e: Event, env: Env) {
    match e
    case Add(line, _) => OneLine(line) && |Normalized(line)| <= 242
    case Remove(_) => true
    case Call(call) =>
      !PathTooLong(call) && (ByDescriptor(call) ==> call.fd.Some?) && (call.GetdentsCall? ==> Tiled(call.data)) &&
      (call.WriteCall? ==> call.fd != Some(env.protectFile)) &&
      (call.WriteCall? && call.fd == Some(env.ctrlFile) ==> |call.text| < BUFFER_SIZE)
  }

  /** Tame events, and at most 254 items at a time. */
  ghost predicate TameRun(es: seq<Event>, env: Env) {
    forall i :: 0 <= i < |es| ==> Tame(es[i], env) && |Edited(es[..i + 1])| <= 254
  }

  lemma TameNeverBreaks(w: World, e: Event, env: Env)
    requires Tame(e, env) && AllClean(w.items) && |ItemsAfter(w.items, e)| <= 254
    requires PathsUpTo(w.kernel.entries, 242)
    ensures !Breaks(w, e, env)
  {
    hide Trips, PathsUpTo, PathTooLong, Fits, EndsBadly, Locked, Tiled, Records;
    forall q, t
      ensures !Trips(w.kernel.entries, q, t)
    {
      ShortNeverTrips(w.kernel.entries, q, t);
    }
    if e.Add? {
      ItemsStayClean(w.items, e);
      UpTo254Fit(ItemsAfter(w.items, e));
    }
  }

  lemma TameIsTyped(e: Event, env: Env)
    requires Tame(e, env)
    ensures Typed(e) && !Foreign(e, env) && (e.Add? ==> |Normalized(e.line)| <= 242)
  {
  }

  lemma TameIsClientOnly(es: seq<Event>, env: Env)
    requires TameRun(es, env)
    ensures ClientOnly(es, env) && AllTyped(es)
  {
    hide Tame, Typed, Foreign;
    forall i | 0 <= i < |es|
      ensures Typed(es[i]) && !Foreign(es[i], env)
    {
      TameIsTyped(es[i], env);
    }
  }

  lemma TameNeverBreaksAt(es: seq<Event>, i: nat, env: Env)
    requires TameRun(es, env) && ClientOnly(es, env) && i < |es|
    ensures !BreaksAt(es, i, env)
  {
    hide Breaks, Step, Tame, Typed, Foreign;
    var before := es[..i];
    if !Run(START, before, env).crashed {
      forall j | 0 <= j < i && before[j].Add?
        ensures |Normalized(before[j].line)| <= 242
      {
        TameIsTyped(es[j], env);
      }
      EntriesUpTo(before, env, 242);
      ItemsAreSound(before, env);
      ItemsAreEdited(before, env);
      assert es[..i + 1][..i] == before;
      TameNeverBreaks(Run(START, before, env), es[i], env);
    }
  }

  /** Such runs never crash, whatever the files and whatever the order. */
  lemma TameRunsSurvive(es: seq<Event>, env: Env)
    requires TameRun(es, env)
    ensures !Run(START, es, env).crashed
  {
    hide Breaks, Step, TameRun, ClientOnly, BreaksAt;
    TameIsClientOnly(es, env);
    RunCrashesIff(es, env);
    if i :| 0 <= i < |es| && BreaksAt(es, i, env) {
      TameNeverBreaksAt(es, i, env);
    }
  }

  /** One listed directory whose path is a few characters too long: making a directory in it crashes. */
  lemma LongDirectoryCrashesIff(dir: string, name: string, env: Env)
    requires PlainLine(dir) && Openable(dir, env.files) && Simple(name) && |dir| + |name| + 1 < PATH_MAX
    ensures Run(START, [Add(dir, 'm'), Call(MkdirCall(dir, name))], env).crashed <==> |dir| > 243
  {
    hide Run, Step, Decide, Normalized, Simple;
    var add, call := Add(dir, 'm'), MkdirCall(dir, name);
    RunSnoc(START, [], add, env);
    RunSnoc(START, [add], Call(call), env);
    assert [] + [add] == [add] && [add] + [Call(call)] == [add, Call(call)];
    var w := Run(START, [add], env);
    RunNothing(env);
    FirstEdit(dir, 'm', env);
    assert TypeOf(['m']) == Mkdir;
    LongDirectory(w, dir, name, env);
  }

  lemma LongDirectory(w: World, dir: string, name: string, env: Env)
    requires !w.crashed && |dir| < FILEPATH_SIZE && env.files(dir).Some?
    requires w.kernel.entries == [Entry(dir, env.files(dir).value, Mkdir)]
    requires Simple(name) && |dir| + |name| + 1 < PATH_MAX
    ensures Step(w, Call(MkdirCall(dir, name)), env).crashed <==> |dir| > 243
  {
    hide ParentOf, Match, Overlong;
    var es := w.kernel.entries;
    ParentOfSimple(dir, name);
    CallCrashesIff(w.kernel, MkdirCall(dir, name));
    MatchIs(es, ByPath(dir), Mkdir, 0);
    FindsLongIff(es, ByPath(dir), Mkdir);
    assert !WalksPast(es, ByPath(dir), Mkdir);
  }

  /** Some program writes a path of 256 characters or more with 'h'; then entering that path crashes. */
  lemma UnterminatedPathCrashes(path: string, env: Env)
    requires 256 <= |path| < 4096 && '@' !in path && '\n' !in path && NUL !in path && env.files(path).Some?
    ensures Run(START, [Call(WriteCall(Some(env.protectFile), path + "@h")), Call(ChdirCall(path))], env).crashed
  {
    hide Run, Step;
    var written, entered := Call(WriteCall(Some(env.protectFile), path + "@h")), Call(ChdirCall(path));
    RunNothing(env);
    RunSnoc(START, [], written, env);
    RunSnoc(START, [written], entered, env);
    assert [] + [written] == [written] && [written] + [entered] == [written, entered];
    UnterminatedPathStored(path, env);
    UnterminatedPathRead(Run(START, [written], env), path, env);
  }

  lemma UnterminatedPathStored(path: string, env: Env)
    requires 256 <= |path| < 4096 && '@' !in path && '\n' !in path && NUL !in path && env.files(path).Some?
    ensures var w := Step(START, Call(WriteCall(Some(env.protectFile), path + "@h")), env);
      !w.crashed && |w.kernel.entries| == 1 && w.kernel.entries[0].path == path[..256]
  {
    hide Parse, CString, Decide;
    assert path + "@h" == path + ['@', 'h'];
    LongPathStored(path, 'h', env.files);
    CStringOfText(path + "@h");
    ArrivesIffUnlocked(INITIAL, env.protectFile, path + "@h");
  }

  lemma UnterminatedPathRead(w: World, path: string, env: Env)
    requires !w.crashed && |path| < 4096 && |w.kernel.entries| == 1
    requires |w.kernel.entries[0].path| == 256 && w.kernel.entries[0].path <= path
    ensures Step(w, Call(ChdirCall(path)), env).crashed
  {
    CallCrashesIff(w.kernel, ChdirCall(path));
    assert WalksPast(w.kernel.entries, ByPath(path), Hide);
  }
}
