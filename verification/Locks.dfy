/** An entry that protects one of the module's own proc files against writing locks its user out: the
    client writes to these files with `write`, which the module intercepts too. */
module Locks {
  import opened CStrings
  import opened Client
  import opened KernelState
  import opened Paths
  import opened ProtectList
  import opened Runs
  import opened WireFormat

  /** Protection is on and the list has an entry against writing to this file. */
  predicate Locked(k: KState, file: Inode) {
    k.enabled && exists e :: e in k.entries && e.ptype == Write && e.inode == file
  }

  /** What is written to a file gets through exactly while the file is not locked. */
  lemma ArrivesIffUnlocked(k: KState, file: Inode, text: string)
    ensures Decide(k, WriteCall(Some(file), text)) == Forwarded <==> !Locked(k, file)
  {
    ProtectedIff(k.entries, ByInode(file), Write);
    if e :| e in k.entries && e.ptype == Write && e.inode == file {
      assert Matches(e, ByInode(file), Write);
    }
  }

  /** An edit reaches the kernel exactly when it is sent and the protect file is not locked; a command,
      exactly when the control file is not. */
  lemma DeliveredIff(w: World, e: Event, env: Env)
    ensures Delivers(w, e, env) <==> Transmits(w, e) && !Locked(w.kernel, env.protectFile)
    ensures forall word :: Obeys(w, e, word, env) <==> Commands(e, word, env) && !Locked(w.kernel, env.ctrlFile)
  {
    hide Decide, Locked;
    if Transmits(w, e) {
      ArrivesIffUnlocked(w.kernel, env.protectFile, Transmission(ItemsAfter(w.items, e), env).text);
    }
    if e.Call? && e.call.WriteCall? {
      ArrivesIffUnlocked(w.kernel, env.ctrlFile, e.call.text);
    }
  }

  // ------------------------------------------------------------ how long it lasts

  /** The commands that can lift a lock. */
  predicate Unlocks(e: Event, env: Env) {
    Commands(e, "disable", env) || Commands(e, "refresh", env) || Commands(e, "clear", env)
  }

  lemma LockedStepKeeps(w: World, e: Event, env: Env)
    requires !w.crashed && !Step(w, e, env).crashed && Locked(w.kernel, env.protectFile)
    requires Unlocks(e, env) ==> Locked(w.kernel, env.ctrlFile)
    ensures Step(w, e, env).kernel.entries == w.kernel.entries && Step(w, e, env).kernel.enabled
  {
    hide Decide, Parse, Print, CString, CommandOf, AfterCommand, PrintSize, LineOverruns;
    if e.Call? {
      if e.call.WriteCall? {
        ArrivesIffUnlocked(w.kernel, env.protectFile, e.call.text);
        ArrivesIffUnlocked(w.kernel, env.ctrlFile, e.call.text);
        if |e.call.text| < 65536 {
          CommandEffect(AfterCall(w.kernel, e.call), e.call.text);
        }
      }
    } else {
      ArrivesIffUnlocked(w.kernel, env.protectFile, Transmission(ItemsAfter(w.items, e), env).text);
    }
  }

  /** A step lifts the lock of the protect file exactly when it is one of these commands and the
      control file is not locked as well. */
  lemma LockEndsIff(w: World, e: Event, env: Env)
    requires !w.crashed && !Step(w, e, env).crashed && Locked(w.kernel, env.protectFile)
    ensures !Locked(Step(w, e, env).kernel, env.protectFile) <==>
            Unlocks(e, env) && !Locked(w.kernel, env.ctrlFile)
  {
    hide Decide, CommandOf;
    if Unlocks(e, env) && !Locked(w.kernel, env.ctrlFile) {
      ArrivesIffUnlocked(w.kernel, env.ctrlFile, e.call.text);
      CommandEffect(AfterCall(w.kernel, e.call), e.call.text);
    } else {
      LockedStepKeeps(w, e, env);
    }
  }

  /** Over a whole run: until such a command comes, and for good if the control file is locked too,
      nothing that any program writes changes the kernel's list or switches protection off. */
  lemma {:induction false} LockLasts(w: World, es: seq<Event>, env: Env)
    requires !Run(w, es, env).crashed && Locked(w.kernel, env.protectFile)
    requires Locked(w.kernel, env.ctrlFile) || forall i :: 0 <= i < |es| ==> !Unlocks(es[i], env)
    ensures Run(w, es, env).kernel.entries == w.kernel.entries && Run(w, es, env).kernel.enabled
  {
    hide Step, Unlocks;
    if es != [] {
      var before, e := es[..|es| - 1], es[|es| - 1];
      CrashIsFinal(Run(w, before, env), e, env);
      LockLasts(w, before, env);
      LockedStepKeeps(Run(w, before, env), e, env);
    }
  }

  // -------------------------------------------------------- runs without locks

  /** Not an item that locks a proc file. */
  predicate LocksNothing(x: Item, env: Env) {
    x.kind == 'w' ==> env.files(x.path) != Some(env.protectFile) && env.files(x.path) != Some(env.ctrlFile)
  }

  ghost predicate Free(es: seq<Event>, env: Env) {
    forall i :: 0 <= i < |es| && es[i].Add? ==> LocksNothing(Item(Normalized(es[i].line), es[i].kind), env)
  }

  /** Whether the kernel's list has been emptied by a command since the last edit. */
  function Emptied(es: seq<Event>, env: Env): bool {
    if es == [] then false
    else match es[|es| - 1]
      case Add(_, _) => false
      case Remove(_) => false
      case Call(_) =>
        Commands(es[|es| - 1], "refresh", env) || Commands(es[|es| - 1], "clear", env) ||
        Emptied(es[..|es| - 1], env)
  }

  lemma {:induction false} EditedLocksNothing(es: seq<Event>, env: Env)
    requires Free(es, env)
    ensures forall x :: x in Edited(es) ==> LocksNothing(x, env)
  {
    if es != [] {
      EditedLocksNothing(es[..|es| - 1], env);
    }
  }

  lemma ReplicaLocksNothing(k: KState, xs: seq<Item>, env: Env)
    requires AllClean(xs) && forall x :: x in xs ==> LocksNothing(x, env)
    requires k.entries == Replica(xs, env.files)
    ensures !Locked(k, env.protectFile) && !Locked(k, env.ctrlFile)
  {
    forall e | e in k.entries && e.ptype == Write
      ensures e.inode != env.protectFile && e.inode != env.ctrlFile
    {
      ReplicaFromItems(xs, e, env.files);
      var x :| x in xs && Openable(x.path, env.files) &&
               e == Entry(x.path, env.files(x.path).value, TypeOf([x.kind]));
      assert [x.kind][0] == x.kind;
    }
  }

  /** When nobody lists a proc file with 'w', no write is ever refused: the kernel's list is the replica
      of the client's, unless a command has emptied it since the last edit. */
  lemma {:induction false} FreeRunsDeliver(es: seq<Event>, env: Env)
    requires ClientOnly(es, env) && Free(es, env) && !Run(START, es, env).crashed
    ensures LastDelivered(es, env) == if Emptied(es, env) then [] else Edited(es)
    ensures var k := Run(START, es, env).kernel;
      !Locked(k, env.protectFile) && !Locked(k, env.ctrlFile)
  {
    if es != [] {
      var before, e := es[..|es| - 1], es[|es| - 1];
      CrashIsFinal(Run(START, before, env), e, env);
      FreeRunsDeliver(before, env);
      ItemsAreEdited(before, env);
      DeliveredIff(Run(START, before, env), e, env);
    }
    ReplicaAgreement(es, env);
    EditedLocksNothing(es, env);
    ReplicaLocksNothing(Run(START, es, env).kernel, LastDelivered(es, env), env);
  }

  // ------------------------------------------------------------------ a lockout

  /** A line that the client keeps as it is and the wire carries as it is. */
  predicate PlainLine(line: string) {
    OneLine(line) && Normalized(line) == line && |line| < FILEPATH_SIZE && '@' !in line
  }

  /** The first edit of a session, with such a line and a type character that does not end the text. */
  lemma FirstEdit(path: string, kind: char, env: Env)
    requires PlainLine(path) && Openable(path, env.files) && !BreaksText(kind)
    ensures var w := Step(START, Add(path, kind), env);
      !w.crashed && w.items == [Item(path, kind)] && w.kernel.enabled &&
      w.kernel.entries == [Entry(path, env.files(path).value, TypeOf([kind]))]
  {
    hide Print, Parse, CString, IndexOf, Arrived, PrintSize, Normalized, TypeOf;
    var x := Item(path, kind);
    UpTo254Fit([x]);
    DeliveredReplica(INITIAL, [x], env);
    UnbrokenCarriesAll([x]);
    UnmarkedArrives([x], env.files);
    assert [x][1..] == [] && Wanted([], env.files) == [];
    assert Wanted([x], env.files) == EntryFor(path, [kind], env.files) + Wanted([], env.files);
    assert ItemsAfter(START.items, Add(path, kind)) == [x];
  }

  /** While the list is that, the protect file cannot be written, and `mkdir` passes everywhere. */
  lemma LockedListDecides(k: KState, lock: string, dir: string, name: string, env: Env)
    requires k.enabled && |lock| <= 242 && k.entries == [Entry(lock, env.protectFile, Write)]
    requires |dir| + |name| + 1 < PATH_MAX
    ensures forall text :: Decide(k, WriteCall(Some(env.protectFile), text)) == Denied
    ensures Decide(k, MkdirCall(dir, name)) == Forwarded
  {
    hide ParentOf;
    MatchIs(k.entries, ByInode(env.protectFile), Write, 0);
    MatchIs(k.entries, ByPath(ParentOf(FullPath(dir, name))), Mkdir, 1);
  }

  /** The user lists the protect file with 'w', then some directory with 'm'. The second list is refused:
      the client shows two items, the kernel has one entry and lets `mkdir` in that directory pass. */
  lemma LockedOut(lock: string, dir: string, name: string, env: Env)
    requires PlainLine(lock) && 0 < |lock| <= 242 && env.files(lock) == Some(env.protectFile)
    requires PlainLine(dir) && |dir| + |name| + 1 < PATH_MAX
    ensures var w := Run(START, [Add(lock, 'w'), Add(dir, 'm')], env);
      !w.crashed && w.items == [Item(lock, 'w'), Item(dir, 'm')] &&
      w.kernel.entries == [Entry(lock, env.protectFile, Write)] &&
      Decide(w.kernel, MkdirCall(dir, name)) == Forwarded
  {
    hide Print, Parse, CString, Decide, PrintSize, Normalized;
    var first, second := Add(lock, 'w'), Add(dir, 'm');
    RunSnoc(START, [], first, env);
    RunSnoc(START, [first], second, env);
    assert [] + [first] == [first] && [first] + [second] == [first, second];
    var w := Run(START, [first], env);
    FirstEdit(lock, 'w', env);
    assert TypeOf(['w']) == Write;
    UpTo254Fit(w.items + [Item(dir, 'm')]);
    LockedListDecides(w.kernel, lock, dir, name, env);
    LockedListDecides(AfterCall(w.kernel, Transmission(w.items + [Item(dir, 'm')], env)), lock, dir, name, env);
    assert Step(w, second, env).items == [Item(lock, 'w'), Item(dir, 'm')];
    assert !Step(w, second, env).crashed;
  }
}
