/** The messages and the passed-on calls of a whole run. */
module Reports {
  import opened CStrings
  import opened Client
  import opened Dirents
  import opened FilterLaws
  import opened KernelState
  import opened ProtectList
  import opened Runs
  import opened WireFormat

  /** The call that an event makes, if it makes one: the client's edits are writes. */
  function Issued(w: World, e: Event, env: Env): Option<Syscall> {
    if e.Call? then Some(e.call)
    else if Transmits(w, e) then Some(Transmission(ItemsAfter(w.items, e), env))
    else None
  }

  /** What a call has to report: the first entry that matches if it is refused, and for a directory read
      the first entry that matches each hidden record. */
  function ReportOf(k: KState, call: Syscall): seq<string> {
    if call.GetdentsCall? then
      if Tiled(call.data) then
        HidingMessages(k.entries, HiddenOnly(Records(call.data), HiddenNumbers(k.entries)))
      else []
    else if Decide(k, call) == Denied then [Message(k.entries[Match(k.entries, QueryOf(call), TypeAsked(call))])]
    else []
  }

  lemma SentIsReport(k: KState, call: Syscall)
    ensures Sent(k, call) == ReportOf(k, call)
  {
    if call.GetdentsCall? {
      if Tiled(call.data) {
        ListingReportsHidden(k.entries, Records(call.data));
      }
    } else if Decide(k, call) == Denied {
      assert k.entries[Match(k.entries, QueryOf(call), TypeAsked(call))].ptype != NoType;
    }
  }

  /** A refused call sends one message, made from the first entry that matches, and the message fits its
      buffer; a call that is not refused and not a directory read sends none. */
  lemma OneMessagePerDenial(k: KState, call: Syscall)
    requires !call.GetdentsCall?
    ensures Decide(k, call) == Denied ==>
      exists i :: 0 <= i < |k.entries| && Matches(k.entries[i], QueryOf(call), TypeAsked(call)) &&
        (forall j :: 0 <= j < i ==> !Matches(k.entries[j], QueryOf(call), TypeAsked(call))) &&
        Sent(k, call) == ["Protected:" + k.entries[i].path + match call
          case MkdirCall(_, _) => "\nMkdir"
          case ChdirCall(_) => "\nHide"
          case ReadCall(_) => "\nRead"
          case WriteCall(_, _) => "\nWrite"
          case UnlinkCall(_, _) => "\nDelete"
          case UnlinkatCall(_, _) => "\nDelete"
          case RenameCall(_, _, _) => "\nRename"] &&
        |Sent(k, call)[0]| < NOTI_SIZE
    ensures Decide(k, call) != Denied ==> Sent(k, call) == []
  {
    if Decide(k, call) == Denied {
      var i := Match(k.entries, QueryOf(call), TypeAsked(call));
      assert k.entries[i].ptype == TypeAsked(call) != NoType;
    }
  }

  // ------------------------------------------------------------ over whole runs

  /** The reports of a run, each made in the state its call met. */
  function Reports(w: World, es: seq<Event>, env: Env): seq<string> {
    if es == [] then []
    else
      var before, e := es[..|es| - 1], es[|es| - 1];
      Reports(w, before, env) + ReportIn(Run(w, before, env), e, env)
  }

  function ReportIn(w: World, e: Event, env: Env): seq<string> {
    match Issued(w, e, env)
    case None => []
    case Some(call) => ReportOf(w.kernel, call)
  }

  /** The calls of a run that are not refused. */
  function PassedOn(w: World, es: seq<Event>, env: Env): seq<Syscall> {
    if es == [] then []
    else
      var before, e := es[..|es| - 1], es[|es| - 1];
      PassedOn(w, before, env) + PassedIn(Run(w, before, env), e, env)
  }

  function PassedIn(w: World, e: Event, env: Env): seq<Syscall> {
    match Issued(w, e, env)
    case None => []
    case Some(call) => if Decide(w.kernel, call) == Denied then [] else [call]
  }

  lemma LogStep(w: World, e: Event, env: Env)
    requires !w.crashed && !Step(w, e, env).crashed
    ensures Step(w, e, env).kernel.log == w.kernel.log + ReportIn(w, e, env)
    ensures Step(w, e, env).kernel.forwarded == w.kernel.forwarded + PassedIn(w, e, env)
  {
    hide Decide, Sent, ReportOf, Print, Parse, CString, PrintSize, CommandOf, LineOverruns;
    if Issued(w, e, env).Some? {
      SentIsReport(w.kernel, Issued(w, e, env).value);
    }
  }

  /** The log is the old log and, in order, the reports of the run; the calls passed on are, in order, all
      calls that were not refused. */
  lemma {:induction false} LogMirrorsVerdicts(w: World, es: seq<Event>, env: Env)
    requires !Run(w, es, env).crashed
    ensures Run(w, es, env).kernel.log == w.kernel.log + Reports(w, es, env)
    ensures Run(w, es, env).kernel.forwarded == w.kernel.forwarded + PassedOn(w, es, env)
  {
    hide Step, ReportIn, PassedIn;
    if es != [] {
      var before, e := es[..|es| - 1], es[|es| - 1];
      var now := Run(w, before, env);
      CrashIsFinal(now, e, env);
      LogMirrorsVerdicts(w, before, env);
      LogStep(now, e, env);
      Associate(w.kernel.log, Reports(w, before, env), ReportIn(now, e, env));
      Associate(w.kernel.forwarded, PassedOn(w, before, env), PassedIn(now, e, env));
    }
  }

  lemma Associate<T>(a: seq<T>, b: seq<T>, c: seq<T>)
    ensures a + b + c == a + (b + c)
  {
  }

  // ---------------------------------------------------------------- counting

  function DeniedBy(w: World, e: Event, env: Env): nat {
    match Issued(w, e, env)
    case None => 0
    case Some(call) => if Decide(w.kernel, call) == Denied then 1 else 0
  }

  function HiddenBy(k: KState, e: Event): nat {
    if e.Call? && e.call.GetdentsCall? && Tiled(e.call.data) then
      |HiddenOnly(Records(e.call.data), HiddenNumbers(k.entries))|
    else 0
  }

  function Denials(w: World, es: seq<Event>, env: Env): nat {
    if es == [] then 0
    else
      var before := es[..|es| - 1];
      Denials(w, before, env) + DeniedBy(Run(w, before, env), es[|es| - 1], env)
  }

  function Concealed(w: World, es: seq<Event>, env: Env): nat {
    if es == [] then 0
    else
      var before := es[..|es| - 1];
      Concealed(w, before, env) + HiddenBy(Run(w, before, env).kernel, es[|es| - 1])
  }

  lemma {:induction false} OneHidingMessageEach(es: seq<Entry>, hidden: seq<Record>)
    ensures |HidingMessages(es, hidden)| == |hidden|
  {
    if hidden != [] {
      OneHidingMessageEach(es, hidden[1..]);
    }
  }

  lemma ReportsInEvent(w: World, e: Event, env: Env)
    ensures |ReportIn(w, e, env)| == DeniedBy(w, e, env) + HiddenBy(w.kernel, e)
  {
    if e.Call? && e.call.GetdentsCall? && Tiled(e.call.data) {
      OneHidingMessageEach(w.kernel.entries, HiddenOnly(Records(e.call.data), HiddenNumbers(w.kernel.entries)));
    }
  }

  /** One report per refused call and per hidden record. */
  lemma {:induction false} ReportsCount(w: World, es: seq<Event>, env: Env)
    ensures |Reports(w, es, env)| == Denials(w, es, env) + Concealed(w, es, env)
  {
    if es != [] {
      var before, e := es[..|es| - 1], es[|es| - 1];
      ReportsCount(w, before, env);
      ReportsInEvent(Run(w, before, env), e, env);
      hide ReportIn, DeniedBy, HiddenBy;
    }
  }

  // ------------------------------------------------------------ an empty list

  /** With an empty list a call passes, unreported and unchanged, unless it overruns a buffer with a path or
      its records, or uses a closed descriptor while protection is on. */
  lemma Transparent(k: KState, call: Syscall, original: int)
    requires k.entries == []
    ensures ResultOf(k, call, original) == Returned(original) <==>
            !PathOverflows(call) && (call.GetdentsCall? ==> Tiled(call.data)) &&
            !(ByDescriptor(call) && call.fd == None && k.enabled)
    ensures ResultOf(k, call, original) == Returned(original) ==>
            AfterCall(k, call) == k.(forwarded := k.forwarded + [call])
    ensures call.GetdentsCall? && Tiled(call.data) ==> Filtered(call.data, HiddenNumbers(k.entries)) == call.data
  {
    hide Tiled, Records, Filtered, LookupFails;
    if call.GetdentsCall? {
      if Tiled(call.data) {
        EmptyListShowsAll(k.entries, call.data);
      }
    } else if !(ByDescriptor(call) && call.fd == None) {
      EmptyListFinds(k.entries, QueryOf(call), TypeAsked(call));
    }
  }

  lemma EmptyListFinds(es: seq<Entry>, q: Query, t: ProtectType)
    requires es == []
    ensures !Protected(es, q, t) && !LookupFails(es, q, t)
  {
  }

  lemma EmptyListShowsAll(es: seq<Entry>, data: seq<Byte>)
    requires es == [] && Tiled(data)
    ensures !ListingFails(es, Records(data)) && ListingNotices(es, Records(data)) == []
    ensures Filtered(data, HiddenNumbers(es)) == data
  {
    assert HiddenNumbers(es) == {};
    FilteredNothing(data);
    ListingReportsHidden(es, Records(data));
    NothingHidden(Records(data));
    forall q, t
      ensures !LookupFails(es, q, t)
    {
      EmptyListFinds(es, q, t);
    }
  }

  lemma {:induction false} NothingHidden(rs: seq<Record>)
    ensures HiddenOnly(rs, {}) == []
  {
    if rs != [] {
      NothingHidden(rs[1..]);
    }
  }
}
