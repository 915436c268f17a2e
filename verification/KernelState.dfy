/** The kernel module's state as a value, and what each entry point does to it. */
module KernelState {
  import opened CStrings
  import opened Dirents
  import opened Paths
  import opened ProtectList
  import opened WireFormat

  const EACCES: int := 13

  /** One intercepted system call. `fd` is the inode behind a descriptor, if it is open; `text` is what is
      written, `data` what the original `getdents64` put into the user's buffer. */
  datatype Syscall =
    | MkdirCall(cwd: string, path: string)
    | ChdirCall(path: string)
    | ReadCall(fd: Option<Inode>)
    | WriteCall(fd: Option<Inode>, text: string)
    | UnlinkCall(cwd: string, path: string)
    | UnlinkatCall(cwd: string, path: string)
    | RenameCall(cwd: string, path: string, newPath: string)
    | GetdentsCall(data: seq<Byte>)

  /** `log`: the messages sent to user space; `forwarded`: the calls passed on to the originals. */
  datatype KState = KState(entries: seq<Entry>, enabled: bool, log: seq<string>, forwarded: seq<Syscall>)

  /** `Fault`: the hook uses a null pointer or leaves a buffer; nothing is claimed from there on. */
  datatype Verdict = Denied | Forwarded | Fault

  /** What a call returns, unless it faults. */
  datatype Outcome = Returned(value: int) | Crashed

  /** The files that paths lead to, among them the module's two proc files. */
  datatype FileSystem = FileSystem(files: Files, protectFile: Inode, ctrlFile: Inode)

  type Env = s: FileSystem | s.protectFile != s.ctrlFile
    witness FileSystem(_ => None, Inode(0, 0), Inode(0, 1))

  // ------------------------------------------------------------------ hooks

  /** The question a hook asks the protect list. */
  function QueryOf(call: Syscall): Query
    requires !call.GetdentsCall?
    requires call.ReadCall? || call.WriteCall? ==> call.fd.Some?
  {
    match call
    case MkdirCall(cwd, path) => ByPath(ParentOf(FullPath(cwd, path)))
    case ChdirCall(path) => ByPath(path)
    case ReadCall(fd) => ByInode(fd.value)
    case WriteCall(fd, _) => ByInode(fd.value)
    case UnlinkCall(cwd, path) => ByPath(FullPath(cwd, path))
    case UnlinkatCall(cwd, path) => ByPath(FullPath(cwd, path))
    case RenameCall(cwd, path, _) => ByPath(FullPath(cwd, path))
  }

  function TypeAsked(call: Syscall): ProtectType {
    match call
    case MkdirCall(_, _) => Mkdir
    case ChdirCall(_) => Hide
    case ReadCall(_) => Read
    case WriteCall(_, _) => Write
    case UnlinkCall(_, _) => Delete
    case UnlinkatCall(_, _) => Delete
    case RenameCall(_, _, _) => Rename
    case GetdentsCall(_) => Hide
  }

  predicate ByDescriptor(call: Syscall) { call.ReadCall? || call.WriteCall? }

  /** A path or full path that its `PATH_MAX` buffer cannot hold with a NUL. */
  predicate PathOverflows(call: Syscall) {
    match call
    case MkdirCall(cwd, path) => |FullPath(cwd, path)| >= PATH_MAX
    case ChdirCall(path) => |path| >= PATH_MAX
    case UnlinkCall(cwd, path) => |FullPath(cwd, path)| >= PATH_MAX
    case UnlinkatCall(cwd, path) => |FullPath(cwd, path)| >= PATH_MAX
    case RenameCall(cwd, path, newPath) =>
      |FullPath(cwd, path)| >= PATH_MAX || |FullPath(cwd, newPath)| >= PATH_MAX
    case _ => false
  }

  /** The lengths that overrun a path buffer. */
  lemma PathOverflowsIff(call: Syscall)
    ensures PathOverflows(call) <==>
      match call
      case MkdirCall(cwd, path) => |cwd| + 1 + |path| >= 4096
      case UnlinkCall(cwd, path) => |cwd| + 1 + |path| >= 4096
      case UnlinkatCall(cwd, path) => |cwd| + 1 + |path| >= 4096
      case RenameCall(cwd, path, newPath) => |cwd| + 1 + |path| >= 4096 || |cwd| + 1 + |newPath| >= 4096
      case ChdirCall(path) => |path| >= 4096
      case ReadCall(_) => false
      case WriteCall(_, _) => false
      case GetdentsCall(_) => false
  {
  }

  function Decide(k: KState, call: Syscall): Verdict {
    if call.GetdentsCall? then
      if Tiled(call.data) && !ListingFails(k.entries, Records(call.data)) then Forwarded else Fault
    else if PathOverflows(call) then Fault
    else if ByDescriptor(call) && !k.enabled then Forwarded
    else if ByDescriptor(call) && call.fd == None then Fault
    else if LookupFails(k.entries, QueryOf(call), TypeAsked(call)) then Fault
    else if Protected(k.entries, QueryOf(call), TypeAsked(call)) then Denied
    else Forwarded
  }

  /** The messages one call sends. */
  function Sent(k: KState, call: Syscall): seq<string> {
    if call.GetdentsCall? then
      if Tiled(call.data) then ListingNotices(k.entries, Records(call.data)) else []
    else if Decide(k, call) == Denied then Notices(k.entries, QueryOf(call), TypeAsked(call))
    else []
  }

  function AfterCall(k: KState, call: Syscall): KState {
    k.(log := k.log + Sent(k, call),
       forwarded := if Decide(k, call) == Forwarded then k.forwarded + [call] else k.forwarded)
  }

  function ResultOf(k: KState, call: Syscall, original: int): Outcome {
    match Decide(k, call)
    case Denied => Returned(-EACCES)
    case Forwarded => Returned(original)
    case Fault => Crashed
  }

  // ------------------------------------------------------------- proc files

  /** `write` to the protect file. */
  function AfterProtectWrite(k: KState, data: string, files: Files): KState {
    if data == "" then k.(entries := [])
    else if |data| >= BUFFER_SIZE then k
    else k.(entries := Parse(CString(data), files).entries)
  }

  predicate ProtectWriteFaults(data: string, files: Files) {
    |data| >= BUFFER_SIZE || (data != "" && Parse(CString(data), files).fault)
  }

  datatype Command = Refresh | Clear | Disable | Enable | Other

  function CommandOf(data: string): Command {
    if "refresh" <= data then Refresh
    else if "clear" <= data then Clear
    else if "disable" <= data then Disable
    else if "enable" <= data then Enable
    else Other
  }

  /** Each command is one word at the front of a text; no text has two of them there. */
  lemma CommandWords(text: string)
    ensures CommandOf(text).Refresh? <==> "refresh" <= text
    ensures CommandOf(text).Clear? <==> "clear" <= text
    ensures CommandOf(text).Disable? <==> "disable" <= text
    ensures CommandOf(text).Enable? <==> "enable" <= text
  {
    assert "refresh" <= text ==> text[0] == 'r';
    assert "clear" <= text ==> text[0] == 'c';
    assert "disable" <= text ==> text[0] == 'd';
    assert "enable" <= text ==> text[0] == 'e';
  }

  function AfterCommand(k: KState, c: Command): KState {
    match c
    case Refresh => k.(entries := [])
    case Clear => k.(entries := [])
    case Disable => k.(enabled := false)
    case Enable => k.(enabled := true)
    case Other => k
  }

  /** `write` to the control file. */
  function AfterControlWrite(k: KState, data: string): KState {
    if |data| >= BUFFER_SIZE then k else AfterCommand(k, CommandOf(data))
  }

  // ---------------------------------------------------- calls and what they do

  /** A state, and whether it was reached without a fault. */
  datatype Effect = Effect(kernel: KState, crashed: bool)

  /** What the original call does to the module: only writes to its two proc files do anything. */
  function Handled(k: KState, call: Syscall, env: Env): Effect {
    if call.WriteCall? && call.fd == Some(env.protectFile) then
      Effect(AfterProtectWrite(k, call.text, env.files), ProtectWriteFaults(call.text, env.files))
    else if call.WriteCall? && call.fd == Some(env.ctrlFile) then
      Effect(AfterControlWrite(k, call.text), |call.text| >= BUFFER_SIZE)
    else Effect(k, false)
  }

  /** A whole call: the hook decides, and what it lets pass takes place. */
  function Performed(k: KState, call: Syscall, env: Env): Effect {
    match Decide(k, call)
    case Fault => Effect(k, true)
    case Denied => Effect(AfterCall(k, call), false)
    case Forwarded => Handled(AfterCall(k, call), call, env)
  }

  const INITIAL: KState := KState([], true, [], [])
}
