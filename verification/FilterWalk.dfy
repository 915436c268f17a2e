/** The walk that filters a record buffer in place, one record at a time. */
module FilterWalk {
  import opened CStrings
  import opened Dirents
  import opened FilterLaws

  // ------------------------------------------------------ records of the walk

  /** The walk over `b` has read `done` and `todo` is left. */
  ghost predicate ReadSoFar(b: seq<Byte>, done: seq<Record>, todo: seq<Byte>) {
    Tiled(b) && Tiled(todo) && Records(b) == done + Records(todo) && Residue(b) == Residue(todo)
  }

  lemma ReadNext(b: seq<Byte>, done: seq<Record>, todo: seq<Byte>)
    requires ReadSoFar(b, done, todo) && todo != [] && !Stops(todo)
    ensures ReadSoFar(b, done + [First(todo)], Rest(todo))
    ensures todo == Encode(First(todo)) + Rest(todo)
  {
    EncodeFirst(todo);
    SplitAt(todo, U16(todo, RECLEN_AT));
    TakeOne(done, First(todo), Records(Rest(todo)));
  }

  lemma SplitAt(b: seq<Byte>, n: nat)
    requires n <= |b|
    ensures b == b[..n] + b[n..]
  {
  }

  lemma TakeOne(done: seq<Record>, x: Record, rest: seq<Record>)
    ensures done + ([x] + rest) == (done + [x]) + rest
  {
  }

  lemma ReadAll(b: seq<Byte>, done: seq<Record>, todo: seq<Byte>)
    requires ReadSoFar(b, done, todo) && (todo == [] || Stops(todo))
    ensures Records(b) == done && Residue(b) == todo
  {
    assert done + [] == done;
  }

  // -------------------------------------------------------- bytes of the walk

  /** The working copy: bytes given up in front, the merged records, what is left to read. */
  ghost predicate Layout(d: seq<Byte>, dropped: seq<Byte>, merged: seq<Byte>, todo: seq<Byte>) {
    d == dropped + merged + todo
  }

  lemma EncodeAllSnoc(es: seq<Record>, e: Record)
    ensures EncodeAll(es + [e]) == EncodeAll(es) + Encode(e)
  {
    EncodeAllAppend(es, [e]);
    EncodeAllCons(e, []);
    assert [e] + [] == [e];
    assert EncodeAll([e]) == Encode(e);
  }

  lemma LayoutKeep(d: seq<Byte>, dropped: seq<Byte>, merged: seq<Byte>, x: seq<Byte>, rest: seq<Byte>)
    requires Layout(d, dropped, merged, x + rest)
    ensures Layout(d, dropped, merged + x, rest)
  {
    assert dropped + merged + (x + rest) == dropped + (merged + x) + rest;
  }

  /** `e` with the two bytes of its length replaced. */
  function Relengthed(e: seq<Byte>, len: nat): seq<Byte>
    requires KIND_AT <= |e| && len < RECLEN_LIMIT
  {
    e[..RECLEN_AT] + [len % 256, len / 256] + e[KIND_AT..]
  }

  lemma EncodeAbsorb(e: Record, n: nat)
    ensures Encode(Absorb(e, n)) == Relengthed(Encode(e), (U16(Encode(e), RECLEN_AT) + n) % RECLEN_LIMIT) + Zeros(n)
  {
    assert U16(Encode(e), RECLEN_AT) == e.Span() % RECLEN_LIMIT;
    assert (e.Span() % RECLEN_LIMIT + n) % RECLEN_LIMIT == (e.Span() + n) % RECLEN_LIMIT;
    assert Encode(e)[..RECLEN_AT] == e.ino + e.off;
    assert Encode(e)[KIND_AT..] == [e.kind] + e.name;
  }

  /** Growing the length of the last merged record and zeroing the record behind it. */
  lemma LayoutAbsorb(d: seq<Byte>, c: seq<Byte>, before: seq<Byte>, last: seq<Byte>, x: seq<Byte>, rest: seq<Byte>,
                     len: nat)
    requires d == before + last + (x + rest) && KIND_AT <= |last| && len < RECLEN_LIMIT && |c| == |d|
    requires forall i :: 0 <= i < |d| ==>
      c[i] == if i == |before| + RECLEN_AT then len % 256
              else if i == |before| + RECLEN_AT + 1 then len / 256
              else if |before| + |last| <= i < |before| + |last| + |x| then 0
              else d[i]
    ensures c == before + (Relengthed(last, len) + Zeros(|x|)) + rest
  {
  }

  // ------------------------------------------------------------ the walk itself

  /** Half way through: `d[head..pos]` holds the merged records, the last of them at `prev`; from
      `pos` on nothing has been touched. */
  ghost predicate Walking(b: seq<Byte>, d: seq<Byte>, pos: nat, head: nat, prev: Option<nat>,
                          done: seq<Record>, hidden: set<nat>)
  {
    head <= pos <= |d| && ReadSoFar(b, done, d[pos..]) &&
    d[head..pos] == EncodeAll(Merged(done, hidden)) &&
    LastAt(Merged(done, hidden), prev, pos)
  }

  /** `prev` points at the last merged record, which ends at `pos`. */
  ghost predicate LastAt(merged: seq<Record>, prev: Option<nat>, pos: nat) {
    match prev
    case None => merged == []
    case Some(p) => merged != [] && p + merged[|merged| - 1].Span() == pos
  }

  lemma WalkStarts(b: seq<Byte>, hidden: set<nat>)
    requires Tiled(b)
    ensures Walking(b, b, 0, 0, None, [], hidden)
  {
    assert b[0..] == b && b[0..0] == [];
    assert [] + Records(b) == Records(b);
  }

  lemma WalkTiled(b: seq<Byte>, d: seq<Byte>, pos: nat, head: nat, prev: Option<nat>,
                  done: seq<Record>, hidden: set<nat>)
    requires Walking(b, d, pos, head, prev, done, hidden) && pos < |d|
    ensures head <= pos && Tiled(d[pos..]) && d[pos..] != []
  {
  }

  /** The record under the walk is the next of the buffer's records. */
  lemma WalkNext(b: seq<Byte>, d: seq<Byte>, pos: nat, head: nat, prev: Option<nat>,
                 done: seq<Record>, hidden: set<nat>)
    requires Walking(b, d, pos, head, prev, done, hidden) && pos < |d| && !Stops(d[pos..])
    ensures Tiled(b) && done <= Records(b) && |done| < |Records(b)| && Records(b)[|done|] == First(d[pos..])
  {
    hide Merged, EncodeAll, Encode, U16;
    assert Records(d[pos..])[0] == First(d[pos..]);
  }

  /** What the loop reads of the record under it. */
  lemma Peek(d: seq<Byte>, pos: nat)
    requires pos < |d| && Tiled(d[pos..])
    ensures pos + KIND_AT <= |d|
    ensures Stops(d[pos..]) <==> U16(d, pos + RECLEN_AT) == 0
    ensures !Stops(d[pos..]) ==> var x := First(d[pos..]);
      x.Span() == U16(d, pos + RECLEN_AT) && x.ino == d[pos..pos + 8] && pos + x.Span() <= |d| &&
      d[pos + x.Span()..] == Rest(d[pos..])
  {
    var todo := d[pos..];
    assert U16(todo, RECLEN_AT) == U16(d, pos + RECLEN_AT);
    assert todo[..8] == d[pos..pos + 8];
    if !Stops(todo) {
      assert d[pos + U16(todo, RECLEN_AT)..] == todo[U16(todo, RECLEN_AT)..];
    }
  }

  lemma WalkLayout(b: seq<Byte>, d: seq<Byte>, pos: nat, head: nat, prev: Option<nat>,
                   done: seq<Record>, hidden: set<nat>)
    requires Walking(b, d, pos, head, prev, done, hidden)
    requires pos < |d| && !Stops(d[pos..])
    ensures var x := First(d[pos..]);
      Layout(d, d[..head], EncodeAll(Merged(done, hidden)), Encode(x) + Rest(d[pos..])) &&
      ReadSoFar(b, done + [x], Rest(d[pos..])) && pos + x.Span() <= |d|
  {
    hide Tiled, Records, Residue, Merged, EncodeAll, Encode;
    ReadNext(b, done, d[pos..]);
    Peek(d, pos);
    assert d == d[..head] + d[head..pos] + d[pos..];
  }

  /** Reading a layout back as positions. */
  lemma LayoutPositions(d: seq<Byte>, dropped: seq<Byte>, merged: seq<Byte>, todo: seq<Byte>, pos: nat)
    requires Layout(d, dropped, merged, todo) && pos == |dropped| + |merged|
    ensures pos <= |d| && d[|dropped|..pos] == merged && d[pos..] == todo
  {
  }

  /** A visible record stays where it is. */
  lemma KeepStep(b: seq<Byte>, d: seq<Byte>, pos: nat, head: nat, prev: Option<nat>,
                 done: seq<Record>, hidden: set<nat>)
    requires Walking(b, d, pos, head, prev, done, hidden)
    requires pos < |d| && !Stops(d[pos..]) && !IsHidden(First(d[pos..]), hidden)
    ensures var x := First(d[pos..]);
      Walking(b, d, pos + x.Span(), head, Some(pos), done + [x], hidden)
  {
    var x, rest, merged := First(d[pos..]), Rest(d[pos..]), Merged(done, hidden);
    WalkLayout(b, d, pos, head, prev, done, hidden);
    LayoutKeep(d, d[..head], EncodeAll(merged), Encode(x), rest);
    LayoutPositions(d, d[..head], EncodeAll(merged) + Encode(x), rest, pos + x.Span());
    MergedSnoc(done, x, hidden);
    EncodeAllSnoc(merged, x);
  }

  /** A hidden record in front moves the head. */
  lemma DropStep(b: seq<Byte>, d: seq<Byte>, pos: nat, head: nat, done: seq<Record>, hidden: set<nat>)
    requires Walking(b, d, pos, head, None, done, hidden)
    requires pos < |d| && !Stops(d[pos..]) && IsHidden(First(d[pos..]), hidden)
    ensures var x := First(d[pos..]); var next := pos + x.Span();
      Walking(b, d, next, next, None, done + [x], hidden)
  {
    var x := First(d[pos..]);
    WalkLayout(b, d, pos, head, None, done, hidden);
    Peek(d, pos);
    MergedSnoc(done, x, hidden);
    assert d[pos + x.Span()..pos + x.Span()] == [];
  }

  /** At the end the region from `head` on is the filtered buffer. */
  lemma WalkEnds(b: seq<Byte>, d: seq<Byte>, pos: nat, head: nat, prev: Option<nat>,
                 done: seq<Record>, hidden: set<nat>)
    requires Walking(b, d, pos, head, prev, done, hidden)
    requires pos == |d| || Stops(d[pos..])
    ensures Tiled(b) && Records(b) == done && head <= |d| && d[head..] == Filtered(b, hidden)
  {
    hide Tiled, Records, Residue, Merged, EncodeAll, Encode, Stops;
    ReadAll(b, done, d[pos..]);
    assert d[head..] == d[head..pos] + d[pos..];
  }

  // ------------------------------------------------------------ array primitives

  method MemSet(a: array<Byte>, from: nat, n: nat)
    requires from + n <= a.Length
    modifies a
    ensures forall i :: 0 <= i < a.Length ==> a[i] == if from <= i < from + n then 0 else old(a[i])
  {
    var i := 0;
    while i < n
      invariant i <= n
      invariant forall k :: 0 <= k < a.Length ==> a[k] == if from <= k < from + i then 0 else old(a[k])
    {
      a[from + i] := 0;
      i := i + 1;
    }
  }

  /** `prev->d_reclen += n`, in 16 bits. */
  method GrowReclen(a: array<Byte>, p: nat, n: nat)
    requires p + KIND_AT <= a.Length
    modifies a
    ensures var len := (old(U16(a[..], p + RECLEN_AT)) + n) % RECLEN_LIMIT;
      a[..] == old(a[..])[p + RECLEN_AT := len % 256][p + RECLEN_AT + 1 := len / 256]
  {
    var len := (a[p + RECLEN_AT] as int + 256 * (a[p + RECLEN_AT + 1] as int) + n) % RECLEN_LIMIT;
    a[p + RECLEN_AT], a[p + RECLEN_AT + 1] := len % 256, len / 256;
  }

  /** `prev` absorbs the record behind it. */
  method AbsorbNext(a: array<Byte>, prev: nat, pos: nat, n: nat,
                    ghost before: seq<Byte>, ghost last: Record, ghost x: seq<Byte>, ghost rest: seq<Byte>)
    requires a[..] == before + Encode(last) + (x + rest)
    requires prev == |before| && pos == prev + last.Span() && n == |x|
    modifies a
    ensures a[..] == before + Encode(Absorb(last, n)) + rest
  {
    ghost var d := a[..];
    assert forall i :: 0 <= i < last.Span() ==> d[prev + i] == Encode(last)[i];
    ghost var len := (U16(Encode(last), RECLEN_AT) + n) % RECLEN_LIMIT;
    GrowReclen(a, prev, n);
    MemSet(a, pos, n);
    LayoutAbsorb(d, a[..], before, Encode(last), x, rest, len);
    EncodeAbsorb(last, n);
  }

  /** A hidden record behind a visible one is absorbed by it. */
  method AbsorbStep(a: array<Byte>, prev: nat, pos: nat, n: nat,
                    ghost b: seq<Byte>, ghost head: nat, ghost done: seq<Record>, ghost hidden: set<nat>,
                    ghost x: Record)
    requires Walking(b, a[..], pos, head, Some(prev), done, hidden)
    requires pos < a.Length && !Stops(a[..][pos..]) && x == First(a[..][pos..])
    requires IsHidden(x, hidden) && n == x.Span()
    modifies a
    ensures Walking(b, a[..], pos + n, head, Some(prev), done + [x], hidden)
  {
    ghost var d := a[..];
    ghost var rest, merged := Rest(d[pos..]), Merged(done, hidden);
    WalkLayout(b, d, pos, head, Some(prev), done, hidden);
    AbsorbLast(a, prev, pos, n, d[..head], merged, x, rest);
    MergedSnoc(done, x, hidden);
    LayoutPositions(a[..], d[..head], EncodeAll(Merged(done + [x], hidden)), rest, pos + n);
  }

  lemma AbsorbSpan(e: Record, n: nat)
    ensures Absorb(e, n).Span() == e.Span() + n
  {
  }

  /** The last merged record absorbs `x`. */
  method AbsorbLast(a: array<Byte>, prev: nat, pos: nat, n: nat, ghost dropped: seq<Byte>,
                    ghost merged: seq<Record>, ghost x: Record, ghost rest: seq<Byte>)
    requires merged != [] && Layout(a[..], dropped, EncodeAll(merged), Encode(x) + rest)
    requires n == x.Span() && pos == |dropped| + |EncodeAll(merged)|
    requires prev + merged[|merged| - 1].Span() == pos
    modifies a
    ensures |EncodeAll(merged[..|merged| - 1] + [Absorb(merged[|merged| - 1], n)])| == |EncodeAll(merged)| + n
    ensures var last := |merged| - 1;
      Layout(a[..], dropped, EncodeAll(merged[..last] + [Absorb(merged[last], n)]), rest)
  {
    hide EncodeAll, Encode, Absorb;
    ghost var front, last := merged[..|merged| - 1], merged[|merged| - 1];
    assert merged == front + [last];
    EncodeAllSnoc(front, last);
    EncodeAllSnoc(front, Absorb(last, n));
    assert Absorb(last, n).Span() == last.Span() + n by { AbsorbSpan(last, n); }
    ghost var before := dropped + EncodeAll(front);
    assert dropped + (EncodeAll(front) + Encode(last)) + (Encode(x) + rest) ==
           before + Encode(last) + (Encode(x) + rest);
    AbsorbNext(a, prev, pos, n, before, last, Encode(x), rest);
    assert dropped + (EncodeAll(front) + Encode(Absorb(last, n))) + rest ==
           before + Encode(Absorb(last, n)) + rest;
  }

  /** The length and the inode number of the record at `pos`. */
  method ReadRecord(a: array<Byte>, pos: nat) returns (reclen: nat, ino: nat)
    requires pos < a.Length && Tiled(a[..][pos..])
    ensures reclen == 0 <==> Stops(a[..][pos..])
    ensures reclen > 0 ==> var x := First(a[..][pos..]);
      reclen == x.Span() && ino == x.Ino() && pos + reclen <= a.Length
  {
    Peek(a[..], pos);
    reclen := a[pos + RECLEN_AT] as int + 256 * (a[pos + RECLEN_AT + 1] as int);
    ino := LittleEndian(a[pos..pos + 8]) % ULONG_LIMIT;
    assert a[pos..pos + 8] == a[..][pos..pos + 8];
  }

  /** One turn of the filtering loop: the record at `pos`, `reclen` bytes long, concealed or not. */
  method FilterRecord(a: array<Byte>, pos: nat, reclen: nat, concealed: bool, head: nat, length: nat,
                      prev: Option<nat>, ghost b: seq<Byte>, ghost done: seq<Record>, ghost hidden: set<nat>)
    returns (newHead: nat, newLength: nat, newPrev: Option<nat>)
    requires head + length == a.Length
    requires Walking(b, a[..], pos, head, prev, done, hidden)
    requires pos < a.Length && !Stops(a[..][pos..]) && reclen == First(a[..][pos..]).Span()
    requires concealed <==> First(a[..][pos..]).Ino() in hidden
    modifies a
    ensures newHead + newLength == a.Length
    ensures Walking(b, a[..], pos + reclen, newHead, newPrev, done + [old(First(a[..][pos..]))], hidden)
  {
    hide Records, Residue, Merged, EncodeAll, Encode, U16;
    newHead, newLength, newPrev := head, length, prev;
    if concealed {
      if prev == None {
        DropStep(b, a[..], pos, head, done, hidden);
        newHead := pos + reclen;
        newLength := newLength - reclen;
      } else {
        AbsorbStep(a, prev.value, pos, reclen, b, head, done, hidden, First(a[..][pos..]));
      }
    } else {
      KeepStep(b, a[..], pos, head, prev, done, hidden);
      newPrev := Some(pos);
    }
  }

  // ---------------------------------------------------------------- user memory

  method CopyOf(a: array<Byte>, n: nat) returns (c: array<Byte>)
    requires n <= a.Length
    ensures fresh(c) && c[..] == a[..n]
  {
    c := new Byte[n];
    forall i | 0 <= i < n {
      c[i] := a[i];
    }
  }

  method CopyBack(dst: array<Byte>, src: array<Byte>, from: nat, n: nat)
    requires dst != src && from + n <= src.Length && n <= dst.Length
    modifies dst
    ensures dst[..n] == src[from..from + n] && dst[n..] == old(dst[n..])
  {
    forall i | 0 <= i < n {
      dst[i] := src[from + i];
    }
  }
}
