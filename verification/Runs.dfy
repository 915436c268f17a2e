/** Whole runs: the user's edits and intercepted calls of all programs, in any order. */
module Runs {
  import opened CStrings
  import opened Client
  import opened KernelState
  import opened ProtectList
  import opened WireFormat

  /** Commands are calls too: writes to the control file. */
  datatype Event =
    | Add(line: string, kind: char)
    | Remove(number: int)
    | Call(call: Syscall)

  /** `crashed`: a buffer was left or a null pointer used; nothing is claimed from there on. */
  datatype World = World(items: seq<Item>, kernel: KState, crashed: bool)

  const START: World := World([], INITIAL, false)

  /** The client's list after an event; the list changes whether or not the kernel hears of it. */
  function ItemsAfter(xs: seq<Item>, e: Event): seq<Item> {
    match e
    case Add(line, kind) => xs + [Item(Normalized(line), kind)]
    case Remove(number) => Without(xs, number)
    case Call(_) => xs
  }

  /** Whether the client sends its list: after every edit, except a removal from an empty list. */
  predicate Transmits(w: World, e: Event) {
    e.Add? || (e.Remove? && w.items != [])
  }

  function Step(w: World, e: Event, env: Env): World {
    if w.crashed then w
    else if e.Add? && LineOverruns(e.line) then w.(crashed := true)
    else if e.Call? then
      var effect := Performed(w.kernel, e.call, env);
      World(w.items, effect.kernel, effect.crashed)
    else if Transmits(w, e) then
      var xs := ItemsAfter(w.items, e);
      var effect := Transmitted(w.kernel, xs, env);
      World(xs, effect.kernel, effect.crashed)
    else w
  }

  function Run(w: World, es: seq<Event>, env: Env): World {
    if es == [] then w else Step(Run(w, es[..|es| - 1], env), es[|es| - 1], env)
  }

  lemma RunNothing(env: Env)
    ensures Run(START, [], env) == START
  {
  }

  lemma RunSnoc(w: World, es: seq<Event>, e: Event, env: Env)
    ensures Run(w, es + [e], env) == Step(Run(w, es, env), e, env)
  {
    hide Step;
    assert (es + [e])[..|es|] == es;
  }

  lemma CrashIsFinal(w: World, e: Event, env: Env)
    ensures w.crashed ==> Step(w, e, env).crashed
  {
  }

  lemma {:induction false} CrashedEarlier(w: World, es: seq<Event>, i: nat, env: Env)
    requires i <= |es| && Run(w, es[..i], env).crashed
    ensures Run(w, es, env).crashed
    decreases |es| - i
  {
    if i == |es| {
      assert es[..i] == es;
    } else {
      assert es[..i + 1][..i] == es[..i];
      CrashIsFinal(Run(w, es[..i], env), es[i], env);
      CrashedEarlier(w, es, i + 1, env);
    }
  }

  // ----------------------------------------------------------- what is written

  /** What the user types is one line of text. */
  predicate Typed(e: Event) { e.Add? ==> OneLine(e.line) }

  /** Some other program writes to the protect file. */
  predicate Foreign(e: Event, env: Env) {
    e.Call? && e.call.WriteCall? && e.call.fd == Some(env.protectFile)
  }

  /** Nothing but the client writes to the protect file. */
  ghost predicate ClientOnly(es: seq<Event>, env: Env) {
    forall i :: 0 <= i < |es| ==> Typed(es[i]) && !Foreign(es[i], env)
  }

  /** The client's list reaches the kernel: it is sent, and the hook on `write` lets it pass. */
  predicate Delivers(w: World, e: Event, env: Env) {
    Transmits(w, e) && Decide(w.kernel, Transmission(ItemsAfter(w.items, e), env)) == Forwarded
  }

  /** Some program writes this word, with anything behind it, to the control file. */
  predicate Commands(e: Event, word: string, env: Env) {
    e.Call? && e.call.WriteCall? && e.call.fd == Some(env.ctrlFile) && word <= e.call.text
  }

  /** The same, and the hook on `write` lets it pass. */
  predicate Obeys(w: World, e: Event, word: string, env: Env) {
    Commands(e, word, env) && Decide(w.kernel, e.call) == Forwarded
  }

  predicate Empties(w: World, e: Event, env: Env) {
    Obeys(w, e, "refresh", env) || Obeys(w, e, "clear", env)
  }

  /** What the words do to the module's state. */
  lemma CommandEffect(k: KState, text: string)
    requires |text| < 65536
    ensures AfterControlWrite(k, text).entries == if "refresh" <= text || "clear" <= text then [] else k.entries
    ensures AfterControlWrite(k, text).enabled ==
            if "disable" <= text then false else if "enable" <= text then true else k.enabled
  {
    CommandWords(text);
    hide CommandOf;
  }

  /** The text that reached the protect file last, from whatever program; nothing since the last command
      that emptied the kernel's list. */
  function LastText(es: seq<Event>, env: Env): string {
    if es == [] then ""
    else
      var before, e := es[..|es| - 1], es[|es| - 1];
      TextAfter(LastText(before, env), Run(START, before, env), e, env)
  }

  function TextAfter(text: string, w: World, e: Event, env: Env): string {
    if Delivers(w, e, env) then CString(Print(ItemsAfter(w.items, e)))
    else if Foreign(e, env) && Decide(w.kernel, e.call) == Forwarded then e.call.text
    else if Empties(w, e, env) then ""
    else text
  }

  lemma StepParses(w: World, text: string, e: Event, env: Env)
    requires !w.crashed && !Step(w, e, env).crashed
    requires w.kernel.entries == Parse(CString(text), env.files).entries
    ensures Step(w, e, env).kernel.entries == Parse(CString(TextAfter(text, w, e, env)), env.files).entries
  {
    hide Decide, Print, Parse, CString, CommandOf, AfterCommand, PrintSize, LineOverruns;
    ParseNothing(env.files);
    CStringOfText("");
    if e.Call? && e.call.WriteCall? && |e.call.text| < 65536 {
      CommandEffect(AfterCall(w.kernel, e.call), e.call.text);
    }
    if Transmits(w, e) {
      CStringOfText(CString(Print(ItemsAfter(w.items, e))));
      if Fits(ItemsAfter(w.items, e)) {
        FitsText(ItemsAfter(w.items, e));
      }
    }
  }

  /** In every state that any run reaches, whatever any program writes, the kernel's list is what the text
      that reached it last says. */
  lemma {:induction false} TextAgreement(es: seq<Event>, env: Env)
    requires !Run(START, es, env).crashed
    ensures Run(START, es, env).kernel.entries == Parse(CString(LastText(es, env)), env.files).entries
  {
    hide Parse, CString, Step, TextAfter;
    if es == [] {
      CStringOfText("");
      ParseNothing(env.files);
    } else {
      var before, e := es[..|es| - 1], es[|es| - 1];
      CrashIsFinal(Run(START, before, env), e, env);
      TextAgreement(before, env);
      StepParses(Run(START, before, env), LastText(before, env), e, env);
    }
  }

  // ------------------------------------------------------ the list delivered last

  /** The client's list is what its edits make it, whatever the kernel answers. */
  function Edited(es: seq<Event>): seq<Item> {
    if es == [] then [] else ItemsAfter(Edited(es[..|es| - 1]), es[|es| - 1])
  }

  lemma {:induction false} ItemsAreEdited(es: seq<Event>, env: Env)
    requires !Run(START, es, env).crashed
    ensures Run(START, es, env).items == Edited(es)
  {
    if es != [] {
      ItemsAreEdited(es[..|es| - 1], env);
    }
  }

  lemma ItemsStayClean(xs: seq<Item>, e: Event)
    requires AllClean(xs) && Typed(e) && (e.Add? ==> !LineOverruns(e.line))
    ensures AllClean(ItemsAfter(xs, e))
  {
    if e.Add? {
      NormalizedClean(e.line);
    }
  }

  /** The client's list as it was when it last reached the kernel; nothing since the last command
      that emptied the kernel's list. */
  function LastDelivered(es: seq<Event>, env: Env): seq<Item> {
    if es == [] then []
    else
      var before, e := es[..|es| - 1], es[|es| - 1];
      DeliveredAfter(LastDelivered(before, env), Run(START, before, env), e, env)
  }

  function DeliveredAfter(delivered: seq<Item>, w: World, e: Event, env: Env): seq<Item> {
    if Delivers(w, e, env) then ItemsAfter(w.items, e)
    else if Empties(w, e, env) then []
    else delivered
  }

  /** A delivered list replaces the kernel's by its replica and faults nowhere. */
  lemma DeliveredReplica(k: KState, xs: seq<Item>, env: Env)
    requires AllClean(xs) && Fits(xs)
    ensures var call := Transmission(xs, env);
      Transmitted(k, xs, env) ==
        match Decide(k, call)
        case Fault => Effect(k, true)
        case Denied => Effect(AfterCall(k, call), false)
        case Forwarded => Effect(AfterCall(k, call).(entries := Replica(xs, env.files)), false)
  {
    ParsePrinted(xs, env.files);
    ParseNothing(env.files);
    FitsText(xs);
    CStringOfText(CString(Print(xs)));
  }

  ghost predicate Replicates(w: World, delivered: seq<Item>, env: Env) {
    AllClean(w.items) && AllClean(delivered) && w.kernel.entries == Replica(delivered, env.files)
  }

  lemma StepReplicates(w: World, delivered: seq<Item>, e: Event, env: Env)
    requires !w.crashed && Replicates(w, delivered, env) && !Step(w, e, env).crashed
    requires Typed(e) && !Foreign(e, env)
    ensures Replicates(Step(w, e, env), DeliveredAfter(delivered, w, e, env), env)
  {
    hide Decide, Print, Parse, CString, CommandOf, AfterCommand, PrintSize, LineOverruns;
    ItemsStayClean(w.items, e);
    if e.Call? && e.call.WriteCall? && |e.call.text| < 65536 {
      CommandEffect(AfterCall(w.kernel, e.call), e.call.text);
    }
    if Transmits(w, e) {
      DeliveredReplica(w.kernel, ItemsAfter(w.items, e), env);
    }
  }

  /** When nothing but the client writes to the protect file, the kernel's list is, in every state that a
      run reaches, the replica of the client's list as it was delivered last. */
  lemma {:induction false} ReplicaAgreement(es: seq<Event>, env: Env)
    requires ClientOnly(es, env) && !Run(START, es, env).crashed
    ensures Replicates(Run(START, es, env), LastDelivered(es, env), env)
  {
    if es != [] {
      var before, e := es[..|es| - 1], es[|es| - 1];
      CrashIsFinal(Run(START, before, env), e, env);
      ReplicaAgreement(before, env);
      StepReplicates(Run(START, before, env), LastDelivered(before, env), e, env);
    } else {
      assert Replica([], env.files) == [];
    }
  }

  /** When the kernel's list is exactly what the delivered list asks for. */
  lemma AgreementExactIff(es: seq<Event>, env: Env)
    requires ClientOnly(es, env) && !Run(START, es, env).crashed
    ensures var xs := LastDelivered(es, env); var entries := Run(START, es, env).kernel.entries;
      Unbroken(xs) ==>
        (entries == Wanted(xs, env.files) <==> forall x :: x in xs ==> Harmless(x, env.files))
    ensures var xs := LastDelivered(es, env); var entries := Run(START, es, env).kernel.entries;
      Carried(xs) <= xs &&
      (Unmarked(xs) ==>
        (entries == Wanted(xs, env.files) <==>
          forall x :: x in xs[|Carried(xs)|..] ==> !Openable(x.path, env.files)))
  {
    var xs := LastDelivered(es, env);
    ReplicaAgreement(es, env);
    CarriedPrefix(xs);
    if Unbroken(xs) {
      ExactIffHarmless(xs, env.files);
    }
    if Unmarked(xs) {
      ExactIffNothingLost(xs, env.files);
    }
  }
}
