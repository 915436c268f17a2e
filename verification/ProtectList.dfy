/** The protect list as values: entries, lookups and the messages a match produces. */
module ProtectList {
  import opened CStrings
  import opened Dirents

  const FILEPATH_SIZE: nat := 256
  const BUFFER_SIZE: nat := 65536
  const NOTI_SIZE: nat := 260

  datatype ProtectType = NoType | Read | Write | Hide | Rename | Open | Delete | Mkdir

  /** `struct inode`, compared by identity; numbers repeat across file systems. */
  datatype Inode = Inode(fs: nat, ino: nat)

  /** What `filp_open` finds at a path. */
  type Files = string -> Option<Inode>

  datatype Entry = Entry(path: string, inode: Inode, ptype: ProtectType)

  /** What the client keeps for each line it sends. */
  datatype Item = Item(path: string, kind: char)

  function TypeOf(s: string): ProtectType {
    if s == "r" then Read
    else if s == "w" then Write
    else if s == "h" then Hide
    else if s == "o" then Open
    else if s == "d" then Delete
    else if s == "n" then Rename
    else if s == "m" then Mkdir
    else NoType
  }

  // ---------------------------------------------------------------- lookups

  datatype Query = ByInode(inode: Inode) | ByNumber(ino: nat) | ByPath(path: string)

  predicate Matches(e: Entry, q: Query, t: ProtectType) {
    e.ptype == t &&
    match q
    case ByInode(inode) => e.inode == inode
    case ByNumber(ino) => e.inode.ino == ino
    case ByPath(path) => e.path == path
  }

  /** Position of the first entry that matches, or the length of the list. */
  function Match(es: seq<Entry>, q: Query, t: ProtectType): (i: nat)
    ensures i <= |es|
    ensures i < |es| ==> Matches(es[i], q, t)
    ensures forall j :: 0 <= j < i ==> !Matches(es[j], q, t)
  {
    if es == [] || Matches(es[0], q, t) then 0 else 1 + Match(es[1..], q, t)
  }

  lemma MatchIs(es: seq<Entry>, q: Query, t: ProtectType, i: nat)
    requires i <= |es| && (i < |es| ==> Matches(es[i], q, t))
    requires forall j :: 0 <= j < i ==> !Matches(es[j], q, t)
    ensures Match(es, q, t) == i
  {
    var k := Match(es, q, t);
    assert !(k < i) && !(i < k);
  }

  predicate Protected(es: seq<Entry>, q: Query, t: ProtectType) {
    Match(es, q, t) < |es|
  }

  lemma ProtectedIff(es: seq<Entry>, q: Query, t: ProtectType)
    ensures Protected(es, q, t) <==> exists e :: e in es && Matches(e, q, t)
  {
    if exists e :: e in es && Matches(e, q, t) {
      var e :| e in es && Matches(e, q, t);
      var k :| 0 <= k < |es| && es[k] == e;
      assert !(k < Match(es, q, t));
    }
  }

  // --------------------------------------------------------------- messages

  function Suffix(t: ProtectType): string {
    match t
    case NoType => ""
    case Read => "\nRead"
    case Write => "\nWrite"
    case Hide => "\nHide"
    case Open => "\nOpen"
    case Delete => "\nDelete"
    case Rename => "\nRename"
    case Mkdir => "\nMkdir"
  }

  function Message(e: Entry): string { "Protected:" + e.path + Suffix(e.ptype) }

  lemma MessageParts(e: Entry)
    requires '\n' !in e.path && e.ptype != NoType
    ensures var n := |"Protected:" + e.path|;
      IndexOf(Message(e), '\n') == n < |Message(e)| &&
      Message(e)[..n] == "Protected:" + e.path && Message(e)[n..] == Suffix(e.ptype)
  {
    var front := "Protected:" + e.path;
    assert Message(e) == front + Suffix(e.ptype);
    assert Suffix(e.ptype)[0] == '\n';
    assert Message(e)[..|front|] == front;
    IndexOfUnique(Message(e), '\n', |front|);
  }

  /** The messages, word by word. */
  lemma MessageWords(e: Entry)
    ensures e.ptype == Read ==> Message(e) == "Protected:" + e.path + "\nRead"
    ensures e.ptype == Write ==> Message(e) == "Protected:" + e.path + "\nWrite"
    ensures e.ptype == Hide ==> Message(e) == "Protected:" + e.path + "\nHide"
    ensures e.ptype == Open ==> Message(e) == "Protected:" + e.path + "\nOpen"
    ensures e.ptype == Delete ==> Message(e) == "Protected:" + e.path + "\nDelete"
    ensures e.ptype == Rename ==> Message(e) == "Protected:" + e.path + "\nRename"
    ensures e.ptype == Mkdir ==> Message(e) == "Protected:" + e.path + "\nMkdir"
  {
  }

  /** A message tells which path was protected and against what. */
  lemma MessageIdentifies(d: Entry, e: Entry)
    requires '\n' !in d.path && '\n' !in e.path && d.ptype != NoType && e.ptype != NoType
    requires Message(d) == Message(e)
    ensures d.path == e.path && d.ptype == e.ptype
  {
    MessageParts(d);
    MessageParts(e);
    assert d.path == ("Protected:" + d.path)[10..] == ("Protected:" + e.path)[10..] == e.path;
    SuffixIdentifies(d.ptype, e.ptype);
  }

  lemma SuffixIdentifies(s: ProtectType, t: ProtectType)
    requires Suffix(s) == Suffix(t)
    ensures s == t
  {
    assert s != NoType && t != NoType ==> Suffix(s)[1..3] == Suffix(t)[1..3];
  }

  /** The messages a match sends: one, or none for an entry without a type. */
  function Notice(e: Entry): seq<string> {
    if e.ptype == NoType then [] else [Message(e)]
  }

  /** What a lookup adds to the log. */
  function Notices(es: seq<Entry>, q: Query, t: ProtectType): seq<string> {
    var i := Match(es, q, t);
    if i < |es| then Notice(es[i]) else []
  }

  /** The message and its NUL fit the 260-byte buffer for every type exactly up to 242 path characters. */
  lemma MessageFitsIff(path: string)
    ensures (forall inode: Inode, t: ProtectType :: !Overlong(Entry(path, inode, t))) <==> |path| <= 242
  {
    if |path| > 242 {
      assert |Message(Entry(path, Inode(0, 0), Delete))| == 17 + |path|;
    }
  }

  // ------------------------------------------------------------ failing lookups

  /** The message of the entry, with its NUL, is longer than the buffer it is built in. */
  predicate Overlong(e: Entry) { |Message(e)| >= NOTI_SIZE }

  /** A stored path that fills its 256 bytes has no NUL; comparing it with a text that it begins
      reads on behind it. */
  predicate ReadPast(e: Entry, q: Query) {
    q.ByPath? && |e.path| >= FILEPATH_SIZE && e.path <= q.path
  }

  /** A lookup reads past a stored path on its way, or builds an overlong message at its end. */
  predicate LookupFails(es: seq<Entry>, q: Query, t: ProtectType) {
    var i := Match(es, q, t);
    (exists j :: 0 <= j < |es| && j <= i && ReadPast(es[j], q)) || (i < |es| && Overlong(es[i]))
  }

  /** No entry matches before position `k`, so the lookup gets that far. */
  lemma MatchFrom(es: seq<Entry>, q: Query, t: ProtectType, k: nat)
    requires k <= |es| && forall j :: 0 <= j < k ==> !Matches(es[j], q, t)
    ensures Match(es, q, t) >= k
  {
    var i := Match(es, q, t);
    assert !(i < k);
  }

  lemma ReadsPastAt(es: seq<Entry>, q: Query, t: ProtectType, k: nat)
    requires k < |es| && ReadPast(es[k], q)
    requires forall j :: 0 <= j < k ==> !Matches(es[j], q, t)
    ensures LookupFails(es, q, t)
  {
    MatchFrom(es, q, t, k);
  }

  /** What a lookup comes to when the walk finds its entry at position `k`, or ends there. */
  lemma LookupEnds(es: seq<Entry>, q: Query, t: ProtectType, k: nat)
    requires k <= |es| && (k < |es| ==> Matches(es[k], q, t) && !ReadPast(es[k], q))
    requires forall j :: 0 <= j < k ==> !Matches(es[j], q, t) && !ReadPast(es[j], q)
    ensures Protected(es, q, t) <==> k < |es|
    ensures Notices(es, q, t) == if k < |es| then Notice(es[k]) else []
    ensures LookupFails(es, q, t) <==> k < |es| && Overlong(es[k])
  {
    MatchIs(es, q, t, k);
  }

  /** Lists whose paths have at most 242 characters never fail. */
  lemma ShortPathsNeverFail(es: seq<Entry>, q: Query, t: ProtectType)
    requires forall e :: e in es ==> |e.path| <= 242
    ensures !LookupFails(es, q, t)
  {
    forall e | e in es
      ensures !Overlong(e) && !ReadPast(e, q)
    {
      MessageFitsIff(e.path);
    }
  }

  predicate ListingFails(es: seq<Entry>, rs: seq<Record>) {
    exists i :: 0 <= i < |rs| && LookupFails(es, ByNumber(rs[i].Ino()), Hide)
  }

  lemma ListingFailsSnoc(es: seq<Entry>, rs: seq<Record>, x: Record)
    ensures ListingFails(es, rs + [x]) <==> ListingFails(es, rs) || LookupFails(es, ByNumber(x.Ino()), Hide)
  {
    hide LookupFails;
    assert forall i :: 0 <= i < |rs| ==> (rs + [x])[i] == rs[i];
    assert (rs + [x])[|rs|] == x;
  }

  lemma ListingFailsWithin(es: seq<Entry>, rs: seq<Record>, i: nat)
    requires i < |rs| && LookupFails(es, ByNumber(rs[i].Ino()), Hide)
    ensures ListingFails(es, rs)
  {
  }

  lemma NothingFails(es: seq<Entry>)
    ensures !ListingFails(es, [])
  {
  }

  // -------------------------------------------------- what a directory hides

  function HiddenNumbers(es: seq<Entry>): set<nat> {
    set e | e in es && e.ptype == Hide :: e.inode.ino
  }

  lemma HiddenIffProtected(es: seq<Entry>, ino: nat)
    ensures ino in HiddenNumbers(es) <==> Protected(es, ByNumber(ino), Hide)
  {
    ProtectedIff(es, ByNumber(ino), Hide);
    if Protected(es, ByNumber(ino), Hide) {
      var e :| e in es && Matches(e, ByNumber(ino), Hide);
      assert e.inode.ino in HiddenNumbers(es);
    }
    if ino in HiddenNumbers(es) {
      var e :| e in es && e.ptype == Hide && e.inode.ino == ino;
      assert Matches(e, ByNumber(ino), Hide);
    }
  }

  /** The messages of one directory read, record by record. */
  function ListingNotices(es: seq<Entry>, rs: seq<Record>): seq<string> {
    if rs == [] then []
    else Notices(es, ByNumber(rs[0].Ino()), Hide) + ListingNotices(es, rs[1..])
  }

  lemma NoNotices(es: seq<Entry>)
    ensures ListingNotices(es, []) == []
  {
  }

  lemma {:induction false} ListingNoticesSnoc(es: seq<Entry>, rs: seq<Record>, x: Record)
    ensures ListingNotices(es, rs + [x]) == ListingNotices(es, rs) + Notices(es, ByNumber(x.Ino()), Hide)
  {
    if rs == [] {
      assert rs + [x] == [x] && [x][1..] == [];
      assert ListingNotices(es, [x]) == Notices(es, ByNumber(x.Ino()), Hide) + ListingNotices(es, []);
    } else {
      assert (rs + [x])[1..] == rs[1..] + [x];
      ListingNoticesSnoc(es, rs[1..], x);
    }
  }

  /** Exactly one message per hidden record. */
  lemma {:induction false} OneNoticePerHidden(es: seq<Entry>, rs: seq<Record>)
    ensures |ListingNotices(es, rs)| + |Visible(rs, HiddenNumbers(es))| == |rs|
  {
    if rs != [] {
      OneNoticePerHidden(es, rs[1..]);
      HiddenIffProtected(es, rs[0].Ino());
    }
  }

  /** The message of the first entry that hides the record; records not hidden have none. */
  function HidingMessage(es: seq<Entry>, x: Record): string {
    var i := Match(es, ByNumber(x.Ino()), Hide);
    if i < |es| then "Protected:" + es[i].path + "\nHide" else ""
  }

  function HidingMessages(es: seq<Entry>, hidden: seq<Record>): seq<string> {
    if hidden == [] then [] else [HidingMessage(es, hidden[0])] + HidingMessages(es, hidden[1..])
  }

  /** The messages of a directory read are, in order, one for each hidden record. */
  lemma {:induction false} ListingReportsHidden(es: seq<Entry>, rs: seq<Record>)
    ensures ListingNotices(es, rs) == HidingMessages(es, HiddenOnly(rs, HiddenNumbers(es)))
  {
    if rs != [] {
      var h := HiddenOnly(rs[1..], HiddenNumbers(es));
      ListingReportsHidden(es, rs[1..]);
      HiddenIffProtected(es, rs[0].Ino());
      HidingNotice(es, rs[0]);
      HidingMessagesCons(es, rs[0], h);
      hide Match, HidingMessage, Notices, HiddenNumbers;
      assert [] + h == h;
    }
  }

  lemma HidingNotice(es: seq<Entry>, x: Record)
    ensures Notices(es, ByNumber(x.Ino()), Hide) ==
            if Protected(es, ByNumber(x.Ino()), Hide) then [HidingMessage(es, x)] else []
  {
  }

  lemma HidingMessagesCons(es: seq<Entry>, x: Record, h: seq<Record>)
    ensures HidingMessages(es, [x] + h) == [HidingMessage(es, x)] + HidingMessages(es, h)
  {
    assert ([x] + h)[1..] == h;
  }
}
