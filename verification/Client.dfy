/** The user's program: its list, its edits and the retransmission after each of them. */
module Client {
  import opened CStrings
  import opened Kernel
  import opened KernelState
  import opened LinkedNodes
  import opened ProtectList
  import opened WireFormat

  function StripLast(s: string, c: char): string {
    if s != "" && s[|s| - 1] == c then s[..|s| - 1] else s
  }

  /** One trailing blank goes, then one trailing slash. */
  function Normalized(line: string): string { StripLast(StripLast(line, ' '), '/') }

  /** A line as `readline` returns it. */
  predicate OneLine(line: string) { NUL !in line && '\n' !in line }

  /** The line does not fit the 256 bytes of a path, or what is left of it leaves no room for a NUL. */
  predicate LineOverruns(line: string) {
    |line| > FILEPATH_SIZE || |Normalized(line)| >= FILEPATH_SIZE
  }

  lemma NormalizedClean(line: string)
    requires OneLine(line) && !LineOverruns(line)
    ensures Clean(Normalized(line))
  {
  }

  /** A line that ends in neither a blank nor a slash is stored as it is; one slash behind it, one blank,
      or a slash and a blank are dropped, and nothing more. */
  lemma NormalizedEndings(p: string)
    requires p == "" || (p[|p| - 1] != ' ' && p[|p| - 1] != '/')
    ensures Normalized(p) == Normalized(p + "/") == Normalized(p + " ") == Normalized(p + "/ ") == p
    ensures Normalized(p + " /") == p + " " && Normalized(p + "//") == p + "/" && Normalized(p + "  ") == p + " "
  {
    StripBehind(p, ' ', ' ');
    StripBehind(p, '/', '/');
    StripBehind(p + "/", ' ', ' ');
    StripBehind(p + " ", '/', '/');
    StripBehind(p + "/", '/', '/');
    StripBehind(p + " ", ' ', ' ');
    assert p + "/ " == p + "/" + [' '] && p + " /" == p + " " + ['/'];
    assert p + "//" == p + "/" + ['/'] && p + "  " == p + " " + [' '];
  }

  lemma StripBehind(p: string, c: char, d: char)
    ensures StripLast(p + [c], d) == if c == d then p else p + [c]
  {
  }

  /** The typed lengths that overrun the client's node. */
  lemma OverrunEndings(p: string)
    requires p == "" || (p[|p| - 1] != ' ' && p[|p| - 1] != '/')
    ensures LineOverruns(p) <==> |p| >= 256
    ensures LineOverruns(p + "/") <==> |p| >= 256
    ensures LineOverruns(p + " ") <==> |p| >= 256
    ensures LineOverruns(p + "/ ") <==> |p| >= 255
  {
    hide Normalized;
    NormalizedEndings(p);
  }

  /** `ys` is `xs` without the item of that number, and `xs` itself when there is none. */
  ghost predicate RemovedAt<T>(xs: seq<T>, number: int, ys: seq<T>) {
    if 0 <= number < |xs| then
      |ys| == |xs| - 1 &&
      (forall i :: 0 <= i < number ==> ys[i] == xs[i]) &&
      (forall i :: number <= i < |ys| ==> ys[i] == xs[i + 1])
    else ys == xs
  }

  lemma WithoutRemoves<T>(xs: seq<T>, number: int)
    ensures RemovedAt(xs, number, Without(xs, number))
  {
  }

  function Without<T>(xs: seq<T>, number: int): seq<T> {
    if 0 <= number < |xs| then xs[..number] + xs[number + 1..] else xs
  }

  lemma WithoutFits(xs: seq<Item>, number: int)
    requires Fits(xs)
    ensures Fits(Without(xs, number))
  {
    if 0 <= number < |xs| {
      assert xs == xs[..number] + ([xs[number]] + xs[number + 1..]);
      PrintAppend(xs[..number], [xs[number]] + xs[number + 1..]);
      PrintAppend([xs[number]], xs[number + 1..]);
      PrintAppend(xs[..number], xs[number + 1..]);
    }
  }

  /** Copies the line into the node's 256 bytes and strips it there. The byte in front of the path is
      taken to be neither a blank nor a slash. */
  method ReadPath(line: string) returns (path: string, fits: bool)
    ensures fits <==> !LineOverruns(line)
    ensures fits ==> path == Normalized(line)
  {
    path := "";
    var len := |line|;
    if len > FILEPATH_SIZE {
      return path, false;
    }
    var i := 0;
    while i < len
      invariant i <= len && path == line[..i]
    {
      path := path + [line[i]];
      i := i + 1;
    }
    if len > 0 && path[len - 1] == ' ' {
      path := path[..len - 1];
      len := len - 1;
    }
    if len > 0 && path[len - 1] == '/' {
      path := path[..len - 1];
      len := len - 1;
    }
    fits := len < FILEPATH_SIZE;
  }

  /** What the client's transmission of its list does to the kernel: a list that does not fit its
      buffer overruns it; otherwise the text up to its first NUL is written to the protect file. */
  function Transmitted(k: KState, xs: seq<Item>, env: Env): Effect {
    if Fits(xs) then Performed(k, Transmission(xs, env), env) else Effect(k, true)
  }

  function Transmission(xs: seq<Item>, env: Env): Syscall {
    WriteCall(Some(env.protectFile), CString(Print(xs)))
  }

  // ---------------------------------------------------------------- printing

  /** A buffer that holds `text` in front of NULs only. */
  ghost predicate Holds(buffer: array<char>, text: string)
    reads buffer
  {
    |text| <= buffer.Length && buffer[..|text|] == text &&
    forall i :: |text| <= i < buffer.Length ==> buffer[i] == NUL
  }

  /** Writes one character at the moving pointer. */
  method Put(buffer: array<char>, p: nat, c: char, ghost text: string) returns (next: nat)
    requires Holds(buffer, text) && p == |text| < buffer.Length
    modifies buffer
    ensures Holds(buffer, text + [c]) && next == p + 1
  {
    buffer[p] := c;
    assert buffer[..p + 1] == buffer[..p] + [c];
    next := p + 1;
  }

  /** `strncpy` of a whole text, then the three characters that end its line. */
  method PutLine(buffer: array<char>, p: nat, x: Item, ghost text: string) returns (next: nat)
    requires Holds(buffer, text) && p == |text| && p + |Line(x)| <= buffer.Length
    modifies buffer
    ensures Holds(buffer, text + Line(x)) && next == p + |Line(x)|
  {
    var tmp := |x.path|;
    next := p;
    var i := 0;
    assert text + x.path[..0] == text;
    while i < tmp
      invariant i <= tmp && next == p + i && Holds(buffer, text + x.path[..i])
    {
      next := Put(buffer, next, x.path[i], text + x.path[..i]);
      assert text + x.path[..i] + [x.path[i]] == text + x.path[..i + 1];
      i := i + 1;
    }
    assert x.path[..tmp] == x.path;
    next := Put(buffer, next, '@', text + x.path);
    next := Put(buffer, next, x.kind, text + x.path + ['@']);
    next := Put(buffer, next, '\n', text + x.path + ['@'] + [x.kind]);
    assert text + x.path + ['@'] + [x.kind] + ['\n'] == text + Line(x);
  }

  /** The bytes that `refreshFileList` writes: the buffer up to its first NUL. */
  method TextIn(buffer: array<char>, ghost text: string) returns (data: string)
    requires Holds(buffer, text) && NUL in buffer[..]
    ensures data == CString(text)
  {
    if |text| < buffer.Length {
      ReceivedText(buffer[..], text);
    } else {
      assert buffer[..] == text;
    }
    var len := StrLen(buffer);
    data := buffer[..len];
  }

  lemma PrintNothing()
    ensures Print([]) == ""
  {
  }

  lemma FitsText(xs: seq<Item>)
    requires Fits(xs)
    ensures |CString(Print(xs))| < BUFFER_SIZE
  {
    PrintLength(xs);
  }

  lemma CStringOfText(text: string)
    requires NUL !in text
    ensures CString(text) == text
  {
    CStringIs(text, text);
  }

  // ---------------------------------------------------------------- the list

  class Session {
    var root: Node?<Item>
    var tail: Node?<Item>
    ghost var nodes: seq<Node<Item>>
    ghost var Repr: set<Node<Item>>

    /** The chain is acyclic; `tail` is null for the empty list and its last node otherwise. */
    ghost predicate Valid()
      reads this, nodes
    {
      Linked(root, nodes) && tail == Last(nodes) && (forall n :: n in nodes ==> n in Repr)
    }

    ghost function Items(): seq<Item>
      reads this, nodes
    {
      Contents(nodes)
    }

    constructor ()
      ensures Valid() && Items() == [] && Repr == {}
    {
      root, tail := null, null;
      nodes, Repr := [], {};
    }

    /** `refreshFileList`: prints the list and writes the text to the kernel's protect file. */
    method RefreshFileList(k: Module) returns (o: Outcome)
      requires Valid() && k.Valid()
      modifies k`log, k`forwarded, k`root, k`nodes, k`Repr, k.rawBuf
      ensures k.Valid() && fresh(k.Repr - old(k.Repr))
      ensures var effect := Transmitted(old(k.State()), Items(), k.env);
        (o == Crashed <==> effect.crashed) && (o != Crashed ==> k.State() == effect.kernel)
    {
      hide Print, PrintSize, Linked, AreTexts, Decide, Handled, AfterCall, CString;
      var buffer, fits := Printed();
      if !fits {
        return Crashed;
      }
      PrintLength(Items());
      var data := TextIn(buffer, Print(Items()));
      o := k.WriteProtectFile(data);
    }

    /** The printing loop of `refreshFileList`; `fits` tells whether the text stays inside and a NUL is
        there for `strlen`. */
    method Printed() returns (buffer: array<char>, fits: bool)
      requires Valid()
      ensures fresh(buffer) && buffer.Length == BUFFER_SIZE && (fits <==> Fits(Items()))
      ensures fits ==> Holds(buffer, Print(Items())) && NUL in buffer[..]
    {
      hide Print, PrintSize;
      ghost var xs := Items();
      buffer := new char[BUFFER_SIZE](_ => NUL);
      var p := 0;
      var next := root;
      ghost var i := 0;
      PrintLength(xs);
      PrintNothing();
      while next != null
        invariant Valid() && xs == Items() && fresh(buffer)
        invariant i <= |nodes| && next == At(nodes, i)
        invariant Holds(buffer, Print(xs[..i])) && p == |Print(xs[..i])|
        decreases |nodes| - i
      {
        assert next.data == xs[i];
        PrintNext(xs, i);
        if p + |next.data.path| + 3 > BUFFER_SIZE {
          return buffer, false;
        }
        p := PutLine(buffer, p, next.data, Print(xs[..i]));
        next := next.next;
        i := i + 1;
      }
      assert xs[..i] == xs;
      fits := NUL in buffer[..];
      assert p < BUFFER_SIZE ==> buffer[..][p] == NUL;
      assert p == BUFFER_SIZE ==> buffer[..] == Print(xs);
    }

    /** `addFile` with the line and the type character the user typed. */
    method AddFile(line: string, kind: char, k: Module) returns (o: Outcome)
      requires Valid() && k.Valid()
      modifies this, tail, k`log, k`forwarded, k`root, k`nodes, k`Repr, k.rawBuf
      ensures Valid() && fresh(Repr - old(Repr)) && k.Valid() && fresh(k.Repr - old(k.Repr))
      ensures tail == old(tail) || fresh(tail)
      ensures var xs := old(Items()) + [Item(Normalized(line), kind)];
        var effect := Transmitted(old(k.State()), xs, k.env);
        (o == Crashed <==> LineOverruns(line) || effect.crashed) &&
        (o != Crashed ==> Items() == xs && k.State() == effect.kernel)
    {
      hide Linked, AreTexts, Normalized, Transmitted, LineOverruns;
      var path, fits := ReadPath(line);
      if !fits {
        return Crashed;
      }
      Append(Item(path, kind));
      o := RefreshFileList(k);
    }

    /** `removeFile` with the number the user typed; an empty list sends nothing. */
    method RemoveFile(number: int, k: Module) returns (o: Outcome)
      requires Valid() && k.Valid()
      modifies this, nodes, k`log, k`forwarded, k`root, k`nodes, k`Repr, k.rawBuf
      ensures Valid() && Repr == old(Repr) && k.Valid() && fresh(k.Repr - old(k.Repr))
      ensures Items() == Without(old(Items()), number) && RemovedAt(old(Items()), number, Items())
      ensures old(Items()) == [] ==> o == Returned(0) && k.State() == old(k.State())
      ensures old(Items()) != [] ==> var effect := Transmitted(old(k.State()), Items(), k.env);
        (o == Crashed <==> effect.crashed) && (o != Crashed ==> k.State() == effect.kernel)
    {
      WithoutRemoves(Items(), number);
      if root == null {
        return Returned(0);
      }
      assert nodes != [];
      hide Linked, AreTexts, Transmitted, RemovedAt;
      Unlink(number);
      o := RefreshFileList(k);
    }

    /** The new node goes behind the tail, or becomes the whole list. */
    method Append(x: Item)
      requires Valid()
      modifies this, tail
      ensures Valid() && fresh(Repr - old(Repr)) && fresh(tail) && Items() == old(Items()) + [x]
    {
      hide Linked;
      var pfile := new Node(x);
      root := Attach(root, tail, pfile, nodes);
      tail := pfile;
      nodes, Repr := nodes + [pfile], Repr + {pfile};
    }

    /** The search of `removeFile`: the node with that number and the one before it. */
    method Locate(number: nat) returns (pprevious: Node?<Item>, pfile: Node?<Item>)
      requires Valid()
      ensures pfile == if number < |nodes| then nodes[number] else null
      ensures 0 < number < |nodes| ==> pprevious == nodes[number - 1]
    {
      pprevious, pfile := null, root;
      var currentNum := 0;
      while pfile != null && currentNum != number
        invariant currentNum <= number && currentNum <= |nodes| && pfile == At(nodes, currentNum)
        invariant currentNum > 0 ==> pprevious == nodes[currentNum - 1]
        decreases |nodes| - currentNum
      {
        pprevious := pfile;
        pfile := pfile.next;
        currentNum := currentNum + 1;
      }
    }

    /** The list surgery of `removeFile`. */
    method Unlink(number: int)
      requires Valid() && root != null
      modifies this, nodes
      ensures Valid() && Repr == old(Repr) && Items() == Without(old(Items()), number)
    {
      if number == 0 {
        var pfile := root;
        Drop(null, pfile, 0);
      } else if number >= 0 {
        var pprevious, pfile := Locate(number);
        if pfile != null {
          Drop(pprevious, pfile, number);
        }
      }
    }

    /** Unhooks one node and moves `tail` back if it was the last. */
    method Drop(pprevious: Node?<Item>, pfile: Node<Item>, ghost number: nat)
      requires Valid() && number < |nodes| && pfile == nodes[number]
      requires pprevious == if number == 0 then null else nodes[number - 1]
      modifies this, pprevious
      ensures Valid() && Repr == old(Repr) && Items() == Without(old(Items()), number)
    {
      hide Linked, At, Contents;
      ghost var rest := nodes[..number] + nodes[number + 1..];
      LastOfRest(root, nodes, number);
      assert forall n :: n in rest ==> n in Repr;
      root := Detach(root, pprevious, pfile, nodes, number);
      if pfile == tail {
        tail := pprevious;
      }
      nodes := rest;
    }
  }

  /** Which node is last once position `k` is gone. */
  lemma LastOfRest(root: Node?<Item>, nodes: seq<Node<Item>>, k: nat)
    requires Linked(root, nodes) && k < |nodes|
    ensures Last(nodes[..k] + nodes[k + 1..]) ==
            if nodes[k] != Last(nodes) then Last(nodes) else if k == 0 then null else nodes[k - 1]
  {
    if nodes[k] == Last(nodes) {
      assert k == |nodes| - 1;
    }
  }

  lemma PrintNext(xs: seq<Item>, i: nat)
    requires i < |xs|
    ensures Print(xs[..i + 1]) == Print(xs[..i]) + Line(xs[i])
    ensures |Print(xs[..i])| + |Line(xs[i])| <= |Print(xs)|
  {
    assert xs[..i + 1] == xs[..i] + [xs[i]];
    PrintAppend(xs[..i], [xs[i]]);
    assert Print([xs[i]]) == Line(xs[i]) + Print([xs[i]][1..]);
    assert xs == xs[..i + 1] + xs[i + 1..];
    PrintAppend(xs[..i + 1], xs[i + 1..]);
  }
}
