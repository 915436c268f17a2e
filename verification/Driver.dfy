/** The client's program and the kernel module at work on one list of events. */
module Driver {
  import opened CStrings
  import opened Client
  import opened Dirents
  import opened Kernel
  import opened KernelState
  import opened LinkedNodes
  import opened ProtectList
  import opened Runs

  /** The arguments of a call as the hooks receive them: paths are texts, and the records that the
      original `getdents64` returned tile their buffer. */
  predicate Issuable(call: Syscall) {
    match call
    case MkdirCall(cwd, path) => NUL !in cwd && NUL !in path
    case UnlinkCall(cwd, path) => NUL !in cwd && NUL !in path
    case UnlinkatCall(cwd, path) => NUL !in cwd && NUL !in path
    case RenameCall(cwd, path, newPath) => NUL !in cwd && NUL !in path && NUL !in newPath
    case GetdentsCall(data) => Tiled(data)
    case _ => true
  }

  /** A process calls `getdents64` with a buffer that the original call fills with `data`. */
  method Getdents(k: Module, data: seq<Byte>) returns (o: Outcome)
    requires k.Valid() && Tiled(data)
    modifies k`log, k`forwarded
    ensures k.Valid() && (o == Crashed <==> Decide(old(k.State()), GetdentsCall(data)) == Fault)
    ensures o != Crashed ==> k.State() == AfterCall(old(k.State()), GetdentsCall(data))
  {
    hide Tiled, Records, Filtered, Linked, AreTexts, ListingFails, ListingNotices;
    var user := new Byte[|data|](i requires 0 <= i < |data| => data[i]);
    assert user[..|data|] == data;
    o := k.ModifiedGetdents64(user, |data|);
  }

  /** The entry of the patched system call table for each call. */
  method Intercept(k: Module, call: Syscall, origin: int) returns (o: Outcome)
    requires k.Valid() && k.DataIsZero() && Issuable(call)
    modifies k`log, k`forwarded, k`root, k`nodes, k`Repr, k`enabled, k.rawBuf, k.dataBuf
    ensures k.Valid() && k.DataIsZero() && fresh(k.Repr - old(k.Repr))
    ensures var effect := Performed(old(k.State()), call, k.env);
      (o == Crashed <==> effect.crashed) && (o != Crashed ==> k.State() == effect.kernel)
  {
    hide Decide, AfterCall, Linked, AreTexts, Tiled, AfterProtectWrite, AfterControlWrite, ProtectWriteFaults;
    match call {
      case MkdirCall(cwd, path) => o := k.ModifiedMkdir(cwd, path, origin);
      case ChdirCall(path) => o := k.ModifiedChdir(path, origin);
      case ReadCall(fd) => o := k.ModifiedRead(fd, origin);
      case WriteCall(fd, text) => o := k.ModifiedWrite(fd, text, origin);
      case UnlinkCall(cwd, path) => o := k.ModifiedUnlink(cwd, path, origin);
      case UnlinkatCall(cwd, path) => o := k.ModifiedUnlinkat(cwd, path, origin);
      case RenameCall(cwd, path, newPath) => o := k.ModifiedRename(cwd, path, newPath, origin);
      case GetdentsCall(data) => o := Getdents(k, data);
    }
  }

  /** One event, performed by the client's and the module's own methods. */
  method Perform(s: Session, k: Module, e: Event) returns (o: Outcome)
    requires s.Valid() && k.Valid() && k.DataIsZero() && (e.Call? ==> Issuable(e.call))
    modifies s, s.Repr, k`log, k`forwarded, k`root, k`nodes, k`Repr, k`enabled, k.rawBuf, k.dataBuf
    ensures s.Valid() && k.Valid() && k.DataIsZero()
    ensures fresh(s.Repr - old(s.Repr)) && fresh(k.Repr - old(k.Repr))
    ensures var next := Step(World(old(s.Items()), old(k.State()), false), e, k.env);
      (o == Crashed <==> next.crashed) && (o != Crashed ==> next == World(s.Items(), k.State(), false))
  {
    hide Performed, Linked, AreTexts, Transmitted, LineOverruns, Normalized, Issuable;
    match e {
      case Add(line, kind) => o := s.AddFile(line, kind, k);
      case Remove(number) => o := s.RemoveFile(number, k);
      case Call(call) => o := Intercept(k, call, 0);
    }
  }

  lemma RunNext(es: seq<Event>, i: nat, env: Env)
    requires i < |es|
    ensures Run(START, es[..i + 1], env) == Step(Run(START, es[..i], env), es[i], env)
  {
    hide Step;
    assert es[..i + 1][..i] == es[..i];
  }

  /** Any list of events: the two programs are, after all of it, in the state that the run gives, and they
      crash exactly when it does. */
  method Drive(es: seq<Event>, env: Env) returns (s: Session, k: Module, crashed: bool)
    requires forall i :: 0 <= i < |es| && es[i].Call? ==> Issuable(es[i].call)
    ensures fresh(s) && fresh(k) && s.Valid() && k.Valid() && k.DataIsZero()
    ensures crashed == Run(START, es, env).crashed
    ensures !crashed ==> Run(START, es, env) == World(s.Items(), k.State(), false)
  {
    hide Step, Run, Linked, AreTexts, Issuable;
    RunNothing(env);
    s := new Session();
    k := new Module(env);
    var i := 0;
    assert es[..0] == [];
    while i < |es|
      invariant i <= |es| && fresh(s) && fresh(k) && fresh(s.Repr) && fresh(k.Repr)
      invariant fresh(k.rawBuf) && fresh(k.dataBuf) && k.env == env
      invariant s.Valid() && k.Valid() && k.DataIsZero()
      invariant Run(START, es[..i], env) == World(s.Items(), k.State(), false)
    {
      RunNext(es, i, env);
      var o := Perform(s, k, es[i]);
      if o == Crashed {
        CrashedEarlier(START, es, i + 1, env);
        return s, k, true;
      }
      i := i + 1;
    }
    assert es[..i] == es;
    return s, k, false;
  }
}
