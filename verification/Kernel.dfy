/** The kernel module: its global state and the functions that work on it. */
module Kernel {
  import opened CStrings
  import opened Dirents
  import opened FilterWalk
  import opened KernelState
  import opened LinkedNodes
  import opened Paths
  import opened ProtectList
  import opened Tokens
  import opened WireFormat

  const POINTER_SIZE: nat := 4   // what `sizeof data_buf` yields on the 32-bit machines the module is for

  /** `copy_from_user` into a buffer that is large enough. */
  method Receive(buffer: array<char>, data: string)
    requires |data| <= buffer.Length
    modifies buffer
    ensures buffer[..|data|] == data
  {
    forall i | 0 <= i < |data| {
      buffer[i] := data[i];
    }
  }

  /** A received text, once it is terminated, is the text before the first NUL of the data. */
  lemma ReceivedText(buffer: string, data: string)
    requires |data| < |buffer| && buffer[..|data|] == data && buffer[|data|] == NUL
    ensures NUL in buffer && CString(buffer) == CString(data)
  {
    var s := CString(data);
    assert data[..|data|] == data;
    assert s <= buffer;
    CStringIs(buffer, s);
  }

  /** The command words contain no NUL, so it makes no difference where the text ends. */
  lemma WordsOfText(data: string)
    ensures CommandOf(data) == CommandOf(CString(data))
  {
    PrefixOfText("refresh", data);
    PrefixOfText("clear", data);
    PrefixOfText("disable", data);
    PrefixOfText("enable", data);
  }

  lemma PrefixOfText(word: string, data: string)
    requires NUL !in word
    ensures word <= data <==> word <= CString(data)
  {
    var n := |CString(data)|;
    assert n < |data| ==> data[n] == NUL;
    assert forall i :: 0 <= i < |word| ==> word[i] != NUL;
  }

  /** The switch of `sendProtectNotiMsg`; an entry without a type gets no suffix. */
  method CatSuffix(str: array<char>, t: ProtectType) returns (fits: bool)
    requires NUL in str[..]
    modifies str
    ensures NUL in str[..] && (fits <==> old(|CString(str[..])|) + |Suffix(t)| < str.Length)
    ensures fits ==> CString(str[..]) == old(CString(str[..])) + Suffix(t)
  {
    match t {
      case Read => fits := Cat(str, "\nRead");
      case Write => fits := Cat(str, "\nWrite");
      case Hide => fits := Cat(str, "\nHide");
      case Open => fits := Cat(str, "\nOpen");
      case Delete => fits := Cat(str, "\nDelete");
      case Rename => fits := Cat(str, "\nRename");
      case Mkdir => fits := Cat(str, "\nMkdir");
      case NoType => fits := Cat(str, "");
    }
  }

  /** Stored paths are texts: what is behind a NUL is not part of them. */
  ghost predicate AreTexts(es: seq<Entry>) {
    forall i :: 0 <= i < |es| ==> NUL !in es[i].path
  }

  lemma TextsSnoc(es: seq<Entry>, e: Entry)
    requires AreTexts(es) && NUL !in e.path
    ensures AreTexts(es + [e])
  {
  }

  class Module {
    const env: Env
    var root: Node?<Entry>
    var enabled: bool
    var log: seq<string>
    var forwarded: seq<Syscall>
    const dataBuf: array<char>   // never holds anything but NULs
    const rawBuf: array<char>    // where a proc write arrives

    ghost var nodes: seq<Node<Entry>>
    ghost var Repr: set<Node<Entry>>   // all nodes ever linked in

    ghost predicate Valid()
      reads this, nodes
    {
      Linked(root, nodes) && (forall n :: n in nodes ==> n in Repr) && AreTexts(Contents(nodes)) &&
      dataBuf != rawBuf && dataBuf.Length == BUFFER_SIZE && rawBuf.Length == BUFFER_SIZE
    }

    /** `data_buf` holds nothing but NULs. */
    ghost predicate DataIsZero()
      reads dataBuf
    {
      forall i :: 0 <= i < dataBuf.Length ==> dataBuf[i] == NUL
    }

    ghost function State(): KState
      reads this, nodes
    {
      KState(Contents(nodes), enabled, log, forwarded)
    }

    /** `init_communicate`. */
    constructor (env: Env)
      ensures Valid() && DataIsZero() && Repr == {} && State() == INITIAL && this.env == env
      ensures fresh(rawBuf) && fresh(dataBuf)
    {
      this.env := env;
      root, nodes, Repr := null, [], {};
      dataBuf := new char[BUFFER_SIZE](_ => NUL);
      rawBuf := new char[BUFFER_SIZE](_ => NUL);
      log, forwarded := [], [];
      enabled := true;
    }

    // --------------------------------------------------------------- the list

    method LastNode() returns (last: Node?<Entry>)
      requires Valid()
      ensures last == Last(nodes)
    {
      last := root;
      ghost var k := 0;
      while last != null && last.next != null
        invariant nodes == [] ==> last == null
        invariant nodes != [] ==> k < |nodes| && last == nodes[k]
        decreases |nodes| - k
      {
        last := last.next;
        k := k + 1;
      }
    }

    /** Links a new node in behind the last one. */
    method Link(last: Node?<Entry>, e: Entry) returns (n: Node<Entry>)
      requires Valid() && NUL !in e.path
      requires last == Last(nodes)
      modifies `root, `nodes, `Repr, last
      ensures Valid() && fresh(n) && nodes == old(nodes) + [n] && Repr == old(Repr) + {n}
      ensures Contents(nodes) == old(Contents(nodes)) + [e]
    {
      n := new Node(e);
      hide Linked, At, Contents, AreTexts;
      TextsSnoc(Contents(nodes), e);
      root := InsertAfter(root, last, n, nodes);
      nodes, Repr := nodes + [n], Repr + {n};
    }

    /** Half way through a text: the list so far and what the rest of the text adds make up `goal`. */
    ghost predicate Parsing(tmp: array<char>, rest: Option<nat>, more: bool, fault: bool, goal: Parsed)
      reads this, nodes, tmp
    {
      (more && rest.Some? ==> Points(tmp[..], rest.value)) &&
      var later := if more then Remaining(tmp[..], rest, env.files) else Parsed([], fault);
      goal == Parsed(Contents(nodes) + later.entries, later.fault)
    }

    /** One turn of the parser's loop: whatever the line holds is linked in behind `last`. */
    method AppendLine(tmp: array<char>, from: Option<nat>, last: Node?<Entry>, ghost goal: Parsed)
      returns (rest: Option<nat>, newLast: Node?<Entry>, more: bool, fault: bool, added: nat)
      requires Valid() && last == Last(nodes) && Parsing(tmp, from, true, false, goal)
      modifies tmp, `root, `nodes, `Repr, last
      ensures Valid() && newLast == Last(nodes) && Parsing(tmp, rest, more, fault, goal)
      ensures fresh(Repr - old(Repr)) && |nodes| == |old(nodes)| + added
      ensures newLast == last || fresh(newLast)
      ensures rest.Some? ==> from.Some? && from.value < rest.value <= tmp.Length
      ensures more ==> from.Some? && !fault
    {
      hide Linked, AreTexts, Remaining, Points;
      var found;
      rest, found, more, fault := Turn(tmp, from, env.files);
      newLast, added := last, 0;
      ghost var b, before := tmp[..], Contents(nodes);
      ghost var later := if more then Remaining(b, rest, env.files) else Parsed([], fault);
      assert goal == Parsed(before + (AsSeq(found) + later.entries), later.fault);
      if found.Some? {
        added := 1;
        newLast := Link(last, found.value);
        assert tmp[..] == b;
        Reassociate(before, found.value, later.entries);
      } else {
        assert AsSeq(found) + later.entries == later.entries;
      }
      assert goal == Parsed(Contents(nodes) + later.entries, later.fault);
    }

    /** `create_list`: appends what the text in `rdt` says. `fault` reports the null type string. */
    method CreateList(rdt: array<char>) returns (cnt: nat, fault: bool)
      requires Valid() && NUL in rdt[..]
      modifies `root, `nodes, `Repr, Last(nodes)
      ensures Valid() && fresh(Repr - old(Repr))
      ensures var parsed := Parse(CString(rdt[..]), env.files);
        fault == parsed.fault && Contents(nodes) == old(Contents(nodes)) + parsed.entries &&
        (!fault ==> cnt == |parsed.entries|)
    {
      hide Linked, IndexOf;
      var last := LastNode();
      var tmp := WorkingCopy(rdt);
      ghost var parsed := Parse(CString(rdt[..]), env.files);
      ghost var goal := Parsed(Contents(nodes) + parsed.entries, parsed.fault);
      var rest: Option<nat> := Some(0);
      cnt := 0;
      var more := true;
      fault := false;
      while more
        invariant Valid() && last == Last(nodes) && fresh(tmp) && fresh(Repr - old(Repr))
        invariant last == old(Last(nodes)) || fresh(last)
        invariant Parsing(tmp, rest, more, fault, goal)
        invariant |nodes| == |old(nodes)| + cnt
        decreases more, if rest.Some? then tmp.Length + 1 - rest.value else 0
      {
        var added;
        rest, last, more, fault, added := AppendLine(tmp, rest, last, goal);
        cnt := cnt + added;
      }
      assert Contents(nodes) + [] == Contents(nodes);
    }
 
    /** `destroy_list`. */
    method DestroyList()
      requires Valid()
      modifies `root, `nodes
      ensures Valid() && nodes == []
    {
      var p1 := root;
      ghost var k := 0;
      while p1 != null
        invariant k <= |nodes| && p1 == At(nodes, k)
        decreases |nodes| - k
      {
        p1 := p1.next;
        k := k + 1;
      }
      root, nodes := null, [];
    }

    // ------------------------------------------------------------ the decisions

    /** `sendProtectNotiMsg`; `overflow` reports a message that leaves its buffer. */
    method SendProtectNotiMsg(e: Entry) returns (overflow: bool)
      requires NUL !in e.path
      modifies `log
      ensures overflow <==> Overlong(e)
      ensures log == old(log) + if overflow then [] else Notice(e)
    {
      hide CString, IndexOf, Suffix;
      var str := EmptyBuffer(NOTI_SIZE);
      var fits := Cat(str, "Protected:");
      assert CString(str[..]) == "Protected:";
      fits := Cat(str, e.path);
      if !fits {
        return true;
      }
      fits := CatSuffix(str, e.ptype);
      if e.ptype != NoType && fits {
        log := log + [CString(str[..])];
      }
      return !fits;
    }

    /** `is_path_protected`; comparing with a path that fills its field reads on behind it. */
    method IsPathProtected(path: string, t: ProtectType) returns (r: bool, fault: bool)
      requires Valid()
      modifies `log
      ensures Valid() && (fault <==> LookupFails(Contents(nodes), ByPath(path), t))
      ensures !fault ==> r == Protected(Contents(nodes), ByPath(path), t) &&
                         log == old(log) + Notices(Contents(nodes), ByPath(path), t)
    {
      hide Match, HiddenNumbers, Overlong, Notice, Notices, Protected, LookupFails;
      ghost var es, q := Contents(nodes), ByPath(path);
      var p := root;
      ghost var k := 0;
      while p != null
        invariant k <= |nodes| && p == At(nodes, k)
        invariant forall j :: 0 <= j < k ==> !Matches(es[j], q, t) && !ReadPast(es[j], q)
        decreases |nodes| - k
      {
        assert p.data == es[k];
        if |p.data.path| >= FILEPATH_SIZE && p.data.path <= path {
          ReadsPastAt(es, q, t, k);
          return true, true;
        }
        if path == p.data.path && p.data.ptype == t {
          LookupEnds(es, q, t, k);
          fault := SendProtectNotiMsg(p.data);
          return true, fault;
        }
        p := p.next;
        k := k + 1;
      }
      LookupEnds(es, q, t, k);
      return false, false;
    }

    /** `is_ino_protected`. */
    method IsInoProtected(ino: nat, t: ProtectType) returns (r: bool, fault: bool)
      requires Valid()
      modifies `log
      ensures Valid() && (fault <==> LookupFails(Contents(nodes), ByNumber(ino), t))
      ensures !fault ==> r == Protected(Contents(nodes), ByNumber(ino), t) &&
                         log == old(log) + Notices(Contents(nodes), ByNumber(ino), t)
    {
      hide Match, HiddenNumbers, Overlong, Notice, Notices, Protected, LookupFails;
      ghost var es, q := Contents(nodes), ByNumber(ino);
      var p := root;
      ghost var k := 0;
      while p != null
        invariant k <= |nodes| && p == At(nodes, k)
        invariant forall j :: 0 <= j < k ==> !Matches(es[j], q, t)
        decreases |nodes| - k
      {
        assert p.data == es[k];
        if p.data.inode.ino == ino && p.data.ptype == t {
          LookupEnds(es, q, t, k);
          fault := SendProtectNotiMsg(p.data);
          return true, fault;
        }
        p := p.next;
        k := k + 1;
      }
      LookupEnds(es, q, t, k);
      return false, false;
    }

    /** `is_fd_protected`; `fd` is the inode behind the descriptor. The walk reads a closed descriptor's
        null file for every entry, and `fput` reads it after the walk. */
    method IsFdProtected(fd: Option<Inode>, t: ProtectType) returns (r: bool, fault: bool)
      requires Valid()
      modifies `log
      ensures Valid()
      ensures fault <==> enabled && (fd == None || LookupFails(Contents(nodes), ByInode(fd.value), t))
      ensures !fault ==> (r <==> enabled && Protected(Contents(nodes), ByInode(fd.value), t))
      ensures !fault ==> log == old(log) + if r then Notices(Contents(nodes), ByInode(fd.value), t) else []
    {
      if !enabled {
        return false, false;
      }
      if fd == None {
        return false, true;
      }
      hide Match, HiddenNumbers, Overlong, Notice, Notices, Protected, LookupFails;
      ghost var es, q := Contents(nodes), ByInode(fd.value);
      var p := root;
      ghost var k := 0;
      while p != null
        invariant k <= |nodes| && p == At(nodes, k)
        invariant forall j :: 0 <= j < k ==> !Matches(es[j], q, t)
        decreases |nodes| - k
      {
        assert p.data == es[k];
        if p.data.inode == fd.value && p.data.ptype == t {
          LookupEnds(es, q, t, k);
          fault := SendProtectNotiMsg(p.data);
          return true, fault;
        }
        p := p.next;
        k := k + 1;
      }
      LookupEnds(es, q, t, k);
      return false, false;
    }

    // ----------------------------------------------------- directory listings

    /** One turn of the loop of `modified_getdents64`; `reclen` is 0 when the walk has to stop. */
    method FilterTurn(d: array<Byte>, pos: nat, head: nat, length: nat, prev: Option<nat>, ghost es: seq<Entry>,
                      ghost b: seq<Byte>, ghost done: seq<Record>, ghost sent: seq<string>)
      returns (reclen: nat, newHead: nat, newLength: nat, newPrev: Option<nat>, fault: bool,
               ghost newDone: seq<Record>)
      requires head + length == d.Length && Tiled(b)
      requires Valid() && es == Contents(nodes) && pos < d.Length
      requires Walking(b, d[..], pos, head, prev, done, HiddenNumbers(es))
      requires log == sent + ListingNotices(es, done) && !ListingFails(es, done)
      modifies d, `log
      ensures Valid() && newHead + newLength == d.Length
      ensures fault ==> ListingFails(es, Records(b))
      ensures !fault ==> pos + reclen <= d.Length && (reclen == 0 ==> Stops(d[..][pos..]))
      ensures !fault ==> Walking(b, d[..], pos + reclen, newHead, newPrev, newDone, HiddenNumbers(es))
      ensures !fault ==> log == sent + ListingNotices(es, newDone) && !ListingFails(es, newDone)
    {
      hide *;
      WalkTiled(b, d[..], pos, head, prev, done, HiddenNumbers(es));
      var ino;
      reclen, ino := ReadRecord(d, pos);
      newHead, newLength, newPrev, newDone, fault := head, length, prev, done, false;
      if reclen > 0 {
        ghost var x, before := First(d[..][pos..]), d[..];
        newDone := done + [x];
        WalkNext(b, d[..], pos, head, prev, done, HiddenNumbers(es));
        ListingNoticesSnoc(es, done, x);
        ListingFailsSnoc(es, done, x);
        HiddenIffProtected(es, ino);
        var concealed;
        concealed, fault := IsInoProtected(ino, Hide);
        if fault {
          ListingFailsWithin(es, Records(b), |done|);
          return;
        }
        assert d[..] == before;
        newHead, newLength, newPrev := FilterRecord(d, pos, reclen, concealed, head, length, prev, b, done,
                                                    HiddenNumbers(es));
      }
    }

    /** The loop of `modified_getdents64` over its copy of the records. */
    method FilterBuffer(d: array<Byte>) returns (head: nat, length: nat, fault: bool)
      requires Valid() && Tiled(d[..])
      modifies d, `log
      ensures Valid() && head + length == d.Length
      ensures fault <==> ListingFails(Contents(nodes), Records(old(d[..])))
      ensures !fault ==> d[head..] == Filtered(old(d[..]), HiddenNumbers(Contents(nodes)))
      ensures !fault ==> log == old(log) + ListingNotices(Contents(nodes), Records(old(d[..])))
    {
      hide *;
      ghost var es, b, sent := Contents(nodes), d[..], log;
      ghost var done: seq<Record> := [];
      var prev: Option<nat> := None;
      var pos := 0;
      head, length, fault := 0, d.Length, false;
      WalkStarts(b, HiddenNumbers(es));
      NoNotices(es);
      NothingFails(es);
      while pos < d.Length
        invariant Valid() && Contents(nodes) == es && pos <= d.Length && head + length == d.Length && !fault
        invariant Walking(b, d[..], pos, head, prev, done, HiddenNumbers(es))
        invariant log == sent + ListingNotices(es, done) && !ListingFails(es, done)
        decreases d.Length - pos
      {
        var reclen;
        reclen, head, length, prev, fault, done := FilterTurn(d, pos, head, length, prev, es, b, done, sent);
        if fault {
          return;
        }
        if reclen == 0 {
          break;
        }
        pos := pos + reclen;
      }
      WalkEnds(b, d[..], pos, head, prev, done, HiddenNumbers(es));
      assert d[..][head..] == d[head..];
    }

    /** `modified_getdents64`; the original call has put `n` bytes into the user's buffer. */
    method ModifiedGetdents64(user: array<Byte>, n: nat) returns (o: Outcome)
      requires Valid() && n <= user.Length && Tiled(user[..n])
      modifies user, `log, `forwarded
      ensures Valid()
      ensures o == Crashed <==> ListingFails(Contents(nodes), Records(old(user[..n])))
      ensures o != Crashed ==> var out := Filtered(old(user[..n]), HiddenNumbers(Contents(nodes)));
        o == Returned(|out|) && |out| <= n && user[..|out|] == out && user[|out|..] == old(user[|out|..])
      ensures o != Crashed ==> State() == AfterCall(old(State()), GetdentsCall(old(user[..n])))
    {
      hide Tiled, Records, Residue, Merged, EncodeAll, Encode, Filtered, ListingNotices, ListingFails, Linked, AreTexts;
      forwarded := forwarded + [GetdentsCall(user[..n])];
      var dirp2 := CopyOf(user, n);
      var head, length, fault := FilterBuffer(dirp2);
      if fault {
        return Crashed;
      }
      CopyBack(user, dirp2, head, length);
      return Returned(length);
    }

    // -------------------------------------------------------- the other hooks

    method ModifiedMkdir(cwd: string, path: string, origin: int) returns (o: Outcome)
      requires Valid() && NUL !in cwd && NUL !in path
      modifies `log, `forwarded
      ensures Valid() && o == ResultOf(old(State()), MkdirCall(cwd, path), origin)
      ensures o != Crashed ==> State() == AfterCall(old(State()), MkdirCall(cwd, path))
    {
      hide Linked, AreTexts, CString, SlashFromEnd, Match, LookupFails;
      var fullpath, fits := NewFullPath(cwd, path);
      if !fits {
        return Crashed;
      }
      GetParentDir(fullpath);
      var refused, fault := IsPathProtected(CString(fullpath[..]), Mkdir);
      if fault {
        return Crashed;
      }
      if refused {
        return Returned(-EACCES);
      }
      forwarded := forwarded + [MkdirCall(cwd, path)];
      return Returned(origin);
    }

    /** The path is compared as the user wrote it. */
    method ModifiedChdir(path: string, origin: int) returns (o: Outcome)
      requires Valid()
      modifies `log, `forwarded
      ensures Valid() && o == ResultOf(old(State()), ChdirCall(path), origin)
      ensures o != Crashed ==> State() == AfterCall(old(State()), ChdirCall(path))
    {
      hide Linked, AreTexts, Match, LookupFails;
      if |path| >= PATH_MAX {
        // copyStringFromUser leaves its buffer
        return Crashed;
      }
      var refused, fault := IsPathProtected(path, Hide);
      if fault {
        return Crashed;
      }
      if refused {
        return Returned(-EACCES);
      }
      forwarded := forwarded + [ChdirCall(path)];
      return Returned(origin);
    }

    method ModifiedRead(fd: Option<Inode>, origin: int) returns (o: Outcome)
      requires Valid()
      modifies `log, `forwarded
      ensures Valid() && o == ResultOf(old(State()), ReadCall(fd), origin)
      ensures o != Crashed ==> State() == AfterCall(old(State()), ReadCall(fd))
    {
      hide Linked, AreTexts, Match, LookupFails;
      var refused, fault := IsFdProtected(fd, Read);
      if fault {
        return Crashed;
      }
      if refused {
        return Returned(-EACCES);
      }
      forwarded := forwarded + [ReadCall(fd)];
      return Returned(origin);
    }

    /** The part of `modified_write` in front of the original call. */
    method EnterWrite(fd: Option<Inode>, text: string) returns (v: Verdict)
      requires Valid()
      modifies `log, `forwarded
      ensures Valid() && v == Decide(old(State()), WriteCall(fd, text))
      ensures v != Fault ==> State() == AfterCall(old(State()), WriteCall(fd, text))
    {
      hide Linked, AreTexts, Match, LookupFails;
      var refused, fault := IsFdProtected(fd, Write);
      if fault {
        return Fault;
      }
      if refused {
        return Denied;
      }
      forwarded := forwarded + [WriteCall(fd, text)];
      return Forwarded;
    }

    method ModifiedUnlink(cwd: string, path: string, origin: int) returns (o: Outcome)
      requires Valid() && NUL !in cwd && NUL !in path
      modifies `log, `forwarded
      ensures Valid() && o == ResultOf(old(State()), UnlinkCall(cwd, path), origin)
      ensures o != Crashed ==> State() == AfterCall(old(State()), UnlinkCall(cwd, path))
    {
      hide Linked, AreTexts, CString, SlashFromEnd, Match, LookupFails;
      var fullpath, fits := NewFullPath(cwd, path);
      if !fits {
        return Crashed;
      }
      var refused, fault := IsPathProtected(CString(fullpath[..]), Delete);
      if fault {
        return Crashed;
      }
      if refused {
        return Returned(-EACCES);
      }
      forwarded := forwarded + [UnlinkCall(cwd, path)];
      return Returned(origin);
    }

    /** The directory descriptor plays no part: the path is taken from the working directory. */
    method ModifiedUnlinkat(cwd: string, path: string, origin: int) returns (o: Outcome)
      requires Valid() && NUL !in cwd && NUL !in path
      modifies `log, `forwarded
      ensures Valid() && o == ResultOf(old(State()), UnlinkatCall(cwd, path), origin)
      ensures o != Crashed ==> State() == AfterCall(old(State()), UnlinkatCall(cwd, path))
    {
      hide Linked, AreTexts, CString, SlashFromEnd, Match, LookupFails;
      var fullpath, fits := NewFullPath(cwd, path);
      if !fits {
        return Crashed;
      }
      var refused, fault := IsPathProtected(CString(fullpath[..]), Delete);
      if fault {
        return Crashed;
      }
      if refused {
        return Returned(-EACCES);
      }
      forwarded := forwarded + [UnlinkatCall(cwd, path)];
      return Returned(origin);
    }

    /** Both names are built, only the old one is looked up. */
    method ModifiedRename(cwd: string, path: string, newPath: string, origin: int) returns (o: Outcome)
      requires Valid() && NUL !in cwd && NUL !in path && NUL !in newPath
      modifies `log, `forwarded
      ensures Valid() && o == ResultOf(old(State()), RenameCall(cwd, path, newPath), origin)
      ensures o != Crashed ==> State() == AfterCall(old(State()), RenameCall(cwd, path, newPath))
    {
      hide Linked, AreTexts, CString, SlashFromEnd, Match, LookupFails;
      var oldfullpath, oldFits := NewFullPath(cwd, path);
      if !oldFits {
        return Crashed;
      }
      var newfullpath, newFits := NewFullPath(cwd, newPath);
      if !newFits {
        return Crashed;
      }
      var refused, fault := IsPathProtected(CString(oldfullpath[..]), Rename);
      if fault {
        return Crashed;
      }
      if refused {
        return Returned(-EACCES);
      }
      forwarded := forwarded + [RenameCall(cwd, path, newPath)];
      return Returned(origin);
    }

    // ------------------------------------------------------------- proc files

    /** Copies a written text into the raw buffer and terminates it. */
    method AcceptText(data: string)
      requires Valid() && |data| < BUFFER_SIZE
      modifies rawBuf
      ensures NUL in rawBuf[..] && CString(rawBuf[..]) == CString(data)
    {
      Receive(rawBuf, data);
      rawBuf[|data|] := NUL;
      ReceivedText(rawBuf[..], data);
    }

    /** `proc_protect_write`; writing the terminator of a full buffer leaves the buffer. */
    method ProcProtectWrite(data: string) returns (o: Outcome)
      requires Valid()
      modifies `root, `nodes, `Repr, rawBuf
      ensures Valid() && fresh(Repr - old(Repr))
      ensures State() == AfterProtectWrite(old(State()), data, env.files)
      ensures o == if ProtectWriteFaults(data, env.files) then Crashed else Returned(|data|)
    {
      hide Parse, IndexOf, CString, Linked, AreTexts;
      if |data| == 0 {
        DestroyList();
        return Returned(0);
      }
      if |data| >= BUFFER_SIZE {
        Receive(rawBuf, data[..BUFFER_SIZE]);
        return Crashed;
      }
      AcceptText(data);
      DestroyList();
      var n, fault := CreateList(rawBuf);
      return if fault then Crashed else Returned(|data|);
    }

    method Refresh()
      requires Valid() && DataIsZero()
      modifies `root, `nodes, `Repr
      ensures Valid() && fresh(Repr - old(Repr)) && Contents(nodes) == []
    {
      DestroyList();
      assert dataBuf[..][0] == NUL;
      CStringIs(dataBuf[..], "");
      var n, fault := CreateList(dataBuf);
    }

    /** The `memset` covers a pointer's size only. */
    method Clear()
      requires Valid() && DataIsZero()
      modifies `root, `nodes, `Repr, dataBuf
      ensures Valid() && DataIsZero() && fresh(Repr - old(Repr)) && Contents(nodes) == []
    {
      var i := 0;
      while i < POINTER_SIZE
        invariant i <= POINTER_SIZE && Valid() && DataIsZero()
        modifies dataBuf
      {
        dataBuf[i] := NUL;
        i := i + 1;
      }
      Refresh();
    }

    /** `proc_ctrl_write`. */
    method ProcCtrlWrite(data: string) returns (o: Outcome)
      requires Valid() && DataIsZero()
      modifies `root, `nodes, `Repr, `enabled, rawBuf, dataBuf
      ensures Valid() && DataIsZero() && fresh(Repr - old(Repr))
      ensures State() == AfterControlWrite(old(State()), data)
      ensures o == if |data| >= BUFFER_SIZE then Crashed else Returned(|data|)
    {
      hide IndexOf, CString, Linked, AreTexts;
      if |data| == 0 {
        return Returned(0);
      }
      if |data| >= BUFFER_SIZE {
        Receive(rawBuf, data[..BUFFER_SIZE]);
        return Crashed;
      }
      AcceptText(data);
      var text := CString(rawBuf[..]);
      WordsOfText(data);
      if "refresh" <= text {
        Refresh();
      } else if "clear" <= text {
        Clear();
      } else if "disable" <= text {
        enabled := false;
      } else if "enable" <= text {
        enabled := true;
      }
      return Returned(|data|);
    }

    /** `modified_write` on the protect file, and behind it the file's handler. */
    method WriteProtectFile(text: string) returns (o: Outcome)
      requires Valid()
      modifies `log, `forwarded, `root, `nodes, `Repr, rawBuf
      ensures Valid() && fresh(Repr - old(Repr))
      ensures var call := WriteCall(Some(env.protectFile), text);
        var effect := Performed(old(State()), call, env);
        (o != Crashed ==> State() == effect.kernel) &&
        o == if effect.crashed then Crashed else ResultOf(old(State()), call, |text|)
    {
      hide Linked, AreTexts, Decide, AfterCall, Parse, CString, IndexOf;
      var v := EnterWrite(Some(env.protectFile), text);
      match v {
        case Fault => o := Crashed;
        case Denied => o := Returned(-EACCES);
        case Forwarded => o := ProcProtectWrite(text);
      }
    }

    /** The same for the control file. */
    method WriteCtrlFile(text: string) returns (o: Outcome)
      requires Valid() && DataIsZero()
      modifies `log, `forwarded, `root, `nodes, `Repr, `enabled, rawBuf, dataBuf
      ensures Valid() && DataIsZero() && fresh(Repr - old(Repr))
      ensures var call := WriteCall(Some(env.ctrlFile), text);
        var effect := Performed(old(State()), call, env);
        (o != Crashed ==> State() == effect.kernel) &&
        o == if effect.crashed then Crashed else ResultOf(old(State()), call, |text|)
    {
      hide Linked, AreTexts, Decide, AfterCall, CommandOf;
      var v := EnterWrite(Some(env.ctrlFile), text);
      match v {
        case Fault => o := Crashed;
        case Denied => o := Returned(-EACCES);
        case Forwarded => o := ProcCtrlWrite(text);
      }
    }

    /** `modified_write`; `origin` is the original's result for files other than the two proc files. */
    method ModifiedWrite(fd: Option<Inode>, text: string, origin: int) returns (o: Outcome)
      requires Valid() && DataIsZero()
      modifies `log, `forwarded, `root, `nodes, `Repr, `enabled, rawBuf, dataBuf
      ensures Valid() && DataIsZero() && fresh(Repr - old(Repr))
      ensures var call, proc := WriteCall(fd, text), fd == Some(env.protectFile) || fd == Some(env.ctrlFile);
        var effect := Performed(old(State()), call, env);
        (o != Crashed ==> State() == effect.kernel) &&
        o == if effect.crashed then Crashed else ResultOf(old(State()), call, if proc then |text| else origin)
    {
      hide Linked, AreTexts, Decide, AfterCall, AfterProtectWrite, AfterControlWrite, ProtectWriteFaults;
      if fd == Some(env.protectFile) {
        o := WriteProtectFile(text);
      } else if fd == Some(env.ctrlFile) {
        o := WriteCtrlFile(text);
      } else {
        var v := EnterWrite(fd, text);
        o := match v
          case Fault => Crashed
          case Denied => Returned(-EACCES)
          case Forwarded => Returned(origin);
      }
    }
  }
}
