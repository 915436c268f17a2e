/** The switch: `enable` and `disable` turn the decisions by descriptor on and off, and no others. */
module Switch {
  import opened CStrings
  import opened Client
  import opened KernelState
  import opened Locks
  import opened ProtectList
  import opened Runs
  import opened WireFormat

  /** What a write to the control file does, word by word, while that file is not locked. */
  lemma CommandTexts(k: KState, text: string, env: Env)
    requires !Locked(k, env.ctrlFile) && |text| < 65536
    ensures var effect := Performed(k, WriteCall(Some(env.ctrlFile), text), env); var after := effect.kernel;
      !effect.crashed &&
      ("disable" <= text ==> !after.enabled && after.entries == k.entries) &&
      ("enable" <= text ==> after.enabled && after.entries == k.entries) &&
      ("refresh" <= text ==> after.entries == [] && after.enabled == k.enabled) &&
      ("clear" <= text ==> after.entries == [] && after.enabled == k.enabled) &&
      (!("disable" <= text) && !("enable" <= text) && !("refresh" <= text) && !("clear" <= text) ==>
        after.entries == k.entries && after.enabled == k.enabled)
  {
    ArrivesIffUnlocked(k, env.ctrlFile, text);
    CommandEffect(AfterCall(k, WriteCall(Some(env.ctrlFile), text)), text);
    CommandWords(text);
    hide Decide, CommandOf, AfterCommand;
  }

  predicate Switches(e: Event, env: Env) { Commands(e, "disable", env) || Commands(e, "enable", env) }

  /** The flag as the last `enable` or `disable` that reached the kernel left it. */
  function Switched(w: World, es: seq<Event>, env: Env): bool {
    if es == [] then w.kernel.enabled
    else
      var before, e := es[..|es| - 1], es[|es| - 1];
      if Obeys(Run(w, before, env), e, "disable", env) then false
      else if Obeys(Run(w, before, env), e, "enable", env) then true
      else Switched(w, before, env)
  }

  lemma SwitchStep(w: World, e: Event, env: Env)
    requires !w.crashed && !Step(w, e, env).crashed
    ensures Step(w, e, env).kernel.enabled ==
      if Obeys(w, e, "disable", env) then false
      else if Obeys(w, e, "enable", env) then true
      else w.kernel.enabled
  {
    hide Decide, Parse, CString, Print, CommandOf, AfterCommand, PrintSize, LineOverruns;
    if e.Call? && e.call.WriteCall? && |e.call.text| < 65536 {
      CommandEffect(AfterCall(w.kernel, e.call), e.call.text);
    }
  }

  lemma {:induction false} SwitchFollowsCommands(w: World, es: seq<Event>, env: Env)
    requires !Run(w, es, env).crashed
    ensures Run(w, es, env).kernel.enabled == Switched(w, es, env)
  {
    hide Step, Obeys;
    if es != [] {
      var before, e := es[..|es| - 1], es[|es| - 1];
      CrashIsFinal(Run(w, before, env), e, env);
      SwitchFollowsCommands(w, before, env);
      SwitchStep(Run(w, before, env), e, env);
    }
  }

  /** After `disable` every read and write passes silently, of a closed descriptor too, whatever happens,
      until the next `enable`. */
  lemma DisabledReadsPass(w: World, es: seq<Event>, call: Syscall, env: Env)
    requires !Run(w, es, env).crashed && ByDescriptor(call)
    requires !w.kernel.enabled && forall i :: 0 <= i < |es| ==> !Commands(es[i], "enable", env)
    ensures var k := Run(w, es, env).kernel;
      Decide(k, call) == Forwarded && Sent(k, call) == []
  {
    SwitchFollowsCommands(w, es, env);
    NeverSwitchedOn(w, es, env);
  }

  lemma {:induction false} NeverSwitchedOn(w: World, es: seq<Event>, env: Env)
    requires !w.kernel.enabled && forall i :: 0 <= i < |es| ==> !Commands(es[i], "enable", env)
    ensures !Switched(w, es, env)
  {
    hide Commands, Decide;
    if es != [] {
      NeverSwitchedOn(w, es[..|es| - 1], env);
    }
  }

  // ---------------------------------------------------------- what it cannot do

  /** The run without its `enable` and `disable` commands. */
  function Unswitched(es: seq<Event>, env: Env): seq<Event> {
    if es == [] then []
    else
      var before, e := es[..|es| - 1], es[|es| - 1];
      Unswitched(before, env) + if Switches(e, env) then [] else [e]
  }

  lemma SwitchEmptiesNothing(e: Event, env: Env)
    requires Switches(e, env)
    ensures !Commands(e, "refresh", env) && !Commands(e, "clear", env)
  {
    CommandWords(e.call.text);
  }

  lemma {:induction false} UnswitchedEdits(es: seq<Event>, env: Env)
    ensures Edited(Unswitched(es, env)) == Edited(es) && Emptied(Unswitched(es, env), env) == Emptied(es, env)
  {
    hide Commands, Normalized;
    if es != [] {
      var before, e := es[..|es| - 1], es[|es| - 1];
      UnswitchedEdits(before, env);
      if Switches(e, env) {
        SwitchEmptiesNothing(e, env);
        SwitchIsCall(e, env);
        assert Unswitched(before, env) + [] == Unswitched(before, env);
      } else {
        assert Unswitched(es, env)[..|Unswitched(before, env)|] == Unswitched(before, env);
      }
    }
  }

  lemma SwitchIsCall(e: Event, env: Env)
    requires Switches(e, env)
    ensures e.Call?
  {
  }

  /** Two runs that differ only in `enable` and `disable` commands end with the same lists and decide every
      call by path and every directory read alike, as long as no proc file is listed with 'w'. */
  lemma SwitchIrrelevant(es1: seq<Event>, es2: seq<Event>, call: Syscall, env: Env)
    requires Unswitched(es1, env) == Unswitched(es2, env) && !ByDescriptor(call)
    requires ClientOnly(es1, env) && Free(es1, env) && !Run(START, es1, env).crashed
    requires ClientOnly(es2, env) && Free(es2, env) && !Run(START, es2, env).crashed
    ensures var w1, w2 := Run(START, es1, env), Run(START, es2, env);
      w1.items == w2.items && w1.kernel.entries == w2.kernel.entries &&
      Decide(w1.kernel, call) == Decide(w2.kernel, call) && Sent(w1.kernel, call) == Sent(w2.kernel, call)
  {
    var w1, w2 := Run(START, es1, env), Run(START, es2, env);
    SameLists(es1, es2, env);
    SameDecision(w1.kernel, w2.kernel, call);
  }

  lemma SameLists(es1: seq<Event>, es2: seq<Event>, env: Env)
    requires Unswitched(es1, env) == Unswitched(es2, env)
    requires ClientOnly(es1, env) && Free(es1, env) && !Run(START, es1, env).crashed
    requires ClientOnly(es2, env) && Free(es2, env) && !Run(START, es2, env).crashed
    ensures var w1, w2 := Run(START, es1, env), Run(START, es2, env);
      w1.items == w2.items && w1.kernel.entries == w2.kernel.entries
  {
    hide Run, Free, ClientOnly, Edited, Emptied, LastDelivered;
    UnswitchedEdits(es1, env);
    UnswitchedEdits(es2, env);
    ItemsAreEdited(es1, env);
    ItemsAreEdited(es2, env);
    FreeRunsDeliver(es1, env);
    FreeRunsDeliver(es2, env);
    ReplicaAgreement(es1, env);
    ReplicaAgreement(es2, env);
  }

  lemma SameDecision(k1: KState, k2: KState, call: Syscall)
    requires k1.entries == k2.entries && !ByDescriptor(call)
    ensures Decide(k1, call) == Decide(k2, call) && Sent(k1, call) == Sent(k2, call)
  {
  }

  /** With such an item the switch does decide what the list becomes: the edit of `LockedOut` arrives if a
      `disable` comes before it. */
  lemma DisableUnlocks(lock: string, dir: string, off: string, env: Env)
    requires PlainLine(lock) && 0 < |lock| <= 242 && env.files(lock) == Some(env.protectFile)
    requires PlainLine(dir) && Openable(dir, env.files)
    requires "disable" <= off && |off| < BUFFER_SIZE
    ensures var w := Run(START, [Add(lock, 'w'), Call(WriteCall(Some(env.ctrlFile), off)), Add(dir, 'm')], env);
      !w.crashed && w.kernel.entries == [Entry(lock, env.protectFile, Write),
                                         Entry(dir, env.files(dir).value, Mkdir)]
  {
    hide Step, PlainLine;
    var first, second, third := Add(lock, 'w'), Call(WriteCall(Some(env.ctrlFile), off)), Add(dir, 'm');
    RunSnoc(START, [], first, env);
    RunSnoc(START, [first], second, env);
    RunSnoc(START, [first, second], third, env);
    assert [] + [first] == [first] && [first] + [second] == [first, second];
    assert [first, second] + [third] == [first, second, third];
    FirstEdit(lock, 'w', env);
    assert TypeOf(['w']) == Write;
    DisableArrives(Run(START, [first], env), off, env);
    SecondEdit(Run(START, [first, second], env), lock, dir, env);
  }

  lemma DisableArrives(w: World, off: string, env: Env)
    requires !w.crashed && "disable" <= off && |off| < BUFFER_SIZE && !Locked(w.kernel, env.ctrlFile)
    ensures var next := Step(w, Call(WriteCall(Some(env.ctrlFile), off)), env);
      !next.crashed && !next.kernel.enabled && next.items == w.items
  {
    CommandTexts(w.kernel, off, env);
    hide Performed;
  }

  lemma SecondEdit(w: World, lock: string, dir: string, env: Env)
    requires !w.crashed && !w.kernel.enabled && w.items == [Item(lock, 'w')]
    requires PlainLine(lock) && lock != "" && env.files(lock) == Some(env.protectFile)
    requires PlainLine(dir) && Openable(dir, env.files)
    ensures var next := Step(w, Add(dir, 'm'), env);
      !next.crashed && next.kernel.entries == [Entry(lock, env.protectFile, Write),
                                               Entry(dir, env.files(dir).value, Mkdir)]
  {
    hide Print, Parse, CString, IndexOf, Arrived, PrintSize, Normalized;
    var x, y := Item(lock, 'w'), Item(dir, 'm');
    var xs := [x, y];
    assert w.items + [y] == xs;
    UpTo254Fit(xs);
    DeliveredReplica(w.kernel, xs, env);
    UnbrokenCarriesAll(xs);
    UnmarkedArrives(xs, env.files);
    assert TypeOf(['w']) == Write && TypeOf(['m']) == Mkdir;
    assert xs[1..] == [y] && [y][1..] == [] && Wanted([], env.files) == [];
    assert Wanted(xs, env.files) == EntryFor(lock, ['w'], env.files) + Wanted([y], env.files);
    assert Wanted([y], env.files) == EntryFor(dir, ['m'], env.files) + Wanted([], env.files);
  }
}
