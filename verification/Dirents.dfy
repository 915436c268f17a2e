/** The `linux_dirent64` records that `getdents64` returns, and what filtering them means. */
module Dirents {

  type Byte = b: int | 0 <= b < 256

  const RECLEN_AT: nat := 16
  const KIND_AT: nat := 18
  const NAME_AT: nat := 19
  const RECLEN_LIMIT: nat := 65536   // d_reclen is an unsigned short
  const ULONG_LIMIT: nat := 0x1_0000_0000   // inode numbers are compared as 32-bit unsigned longs

  function Zeros(n: nat): (z: seq<Byte>)
    ensures |z| == n && forall i :: 0 <= i < n ==> z[i] == 0
  {
    seq(n, _ => 0)
  }

  function LittleEndian(b: seq<Byte>): nat {
    if b == [] then 0 else b[0] + 256 * LittleEndian(b[1..])
  }

  function U16(b: seq<Byte>, at: nat): nat
    requires at + 2 <= |b|
  {
    b[at] as int + 256 * (b[at + 1] as int)
  }

  // ---------------------------------------------------------------- records

  /** One record. `d_reclen` is not a field: a record that starts life in a buffer is as long as
      its `d_reclen` says, and `Encode` writes the length back modulo 2^16. */
  datatype Dirent = Dirent(ino: seq<Byte>, off: seq<Byte>, kind: Byte, name: seq<Byte>)
  {
    predicate Valid() { |ino| == 8 && |off| == 8 }

    function Span(): nat { NAME_AT + |name| }

    /** The 64-bit field as it arrives in an unsigned long. */
    function Ino(): nat { LittleEndian(ino) % ULONG_LIMIT }
  }

  type Record = e: Dirent | e.Valid() witness Dirent(Zeros(8), Zeros(8), 0, [])

  function Encode(e: Record): (b: seq<Byte>)
    ensures |b| == e.Span()
  {
    var len := e.Span() % RECLEN_LIMIT;
    e.ino + e.off + [len % 256, len / 256] + [e.kind] + e.name
  }

  /** Where a record keeps what: little-endian length in bytes 16 and 17. */
  lemma RecordBytes(e: Record)
    requires e.Span() < 65536
    ensures var b := Encode(e);
      |b| == 19 + |e.name| && b[16] as int + 0x100 * (b[17] as int) == |b| &&
      b[..8] == e.ino && b[8..16] == e.off && b[18] == e.kind && b[19..] == e.name
  {
    var b := Encode(e);
    assert b[..8] == e.ino && b[8..16] == e.off && b[19..] == e.name;
  }

  // --------------------------------------------------------- inode numbers

  lemma LittleEndianFour(b: seq<Byte>)
    requires |b| >= 4
    ensures LittleEndian(b) == b[0] as int + 0x100 * (b[1] as int) + 0x1_0000 * (b[2] as int) +
                               0x100_0000 * (b[3] as int) + 0x1_0000_0000 * LittleEndian(b[4..])
  {
    assert b[1..][1..] == b[2..] && b[2..][1..] == b[3..] && b[3..][1..] == b[4..];
    assert LittleEndian(b) == b[0] + 256 * LittleEndian(b[1..]);
    assert LittleEndian(b[1..]) == b[1] + 256 * LittleEndian(b[2..]);
    assert LittleEndian(b[2..]) == b[2] + 256 * LittleEndian(b[3..]);
    assert LittleEndian(b[3..]) == b[3] + 256 * LittleEndian(b[4..]);
  }

  /** The number that is compared is spelled by the first four bytes, lowest first. */
  lemma InoOfBytes(e: Record)
    ensures e.Ino() == e.ino[0] as int + 0x100 * (e.ino[1] as int) + 0x1_0000 * (e.ino[2] as int) +
                       0x100_0000 * (e.ino[3] as int)
  {
    LittleEndianFour(e.ino);
  }

  /** Eight bytes spell a 64-bit number, lowest first. */
  predicate Spells(b: seq<Byte>, n: nat)
    requires |b| == 8
  {
    n == b[0] as int + 0x100 * (b[1] as int) + 0x1_0000 * (b[2] as int) + 0x100_0000 * (b[3] as int) +
         0x1_0000_0000 * (b[4] as int) + 0x100_0000_0000 * (b[5] as int) +
         0x1_0000_0000_0000 * (b[6] as int) + 0x100_0000_0000_0000 * (b[7] as int)
  }

  /** A record of inode n is looked up by the low 32 bits of n. */
  lemma InoOfNumber(e: Record, n: nat)
    requires Spells(e.ino, n)
    ensures e.Ino() == n % 0x1_0000_0000
  {
    InoOfBytes(e);
    var high := e.ino[4] as int + 0x100 * (e.ino[5] as int) + 0x1_0000 * (e.ino[6] as int) +
                0x100_0000 * (e.ino[7] as int);
    assert n == e.Ino() + 0x1_0000_0000 * high;
  }

  lemma SameDigit(a: Byte, m: nat, b: Byte, n: nat)
    ensures a + 0x100 * m == b + 0x100 * n <==> a == b && m == n
  {
  }

  /** Two records are told apart exactly by the first four bytes. */
  lemma SameInoIff(d: Record, e: Record)
    ensures d.Ino() == e.Ino() <==>
            d.ino[0] == e.ino[0] && d.ino[1] == e.ino[1] && d.ino[2] == e.ino[2] && d.ino[3] == e.ino[3]
  {
    InoOfBytes(d);
    InoOfBytes(e);
    hide LittleEndian;
    var d2, e2 := d.ino[2] as int + 0x100 * (d.ino[3] as int), e.ino[2] as int + 0x100 * (e.ino[3] as int);
    var d1, e1 := d.ino[1] as int + 0x100 * d2, e.ino[1] as int + 0x100 * e2;
    assert d.Ino() == d.ino[0] as int + 0x100 * d1 && e.Ino() == e.ino[0] as int + 0x100 * e1;
    SameDigit(d.ino[0], d1, e.ino[0], e1);
    SameDigit(d.ino[1], d2, e.ino[1], e2);
    SameDigit(d.ino[2], d.ino[3] as int, e.ino[2], e.ino[3] as int);
  }

  function EncodeAll(es: seq<Record>): seq<Byte> {
    if es == [] then [] else Encode(es[0]) + EncodeAll(es[1..])
  }

  lemma EncodeAllCons(e: Record, es: seq<Record>)
    ensures EncodeAll([e] + es) == Encode(e) + EncodeAll(es)
  {
    assert ([e] + es)[1..] == es;
  }

  lemma {:induction false} EncodeAllAppend(a: seq<Record>, b: seq<Record>)
    ensures EncodeAll(a + b) == EncodeAll(a) + EncodeAll(b)
  {
    if a == [] {
      assert a + b == b;
    } else {
      assert (a + b)[1..] == a[1..] + b;
      EncodeAllAppend(a[1..], b);
    }
  }

  /** A zero `d_reclen` ends the walk. */
  predicate Stops(b: seq<Byte>) {
    |b| >= KIND_AT && U16(b, RECLEN_AT) == 0
  }

  /** The walk never leaves the buffer: whole records up to the end or up to a zero `d_reclen`. */
  predicate Tiled(b: seq<Byte>) {
    b == [] || Stops(b) ||
    (|b| >= NAME_AT && NAME_AT <= U16(b, RECLEN_AT) <= |b| && Tiled(b[U16(b, RECLEN_AT)..]))
  }

  function Rest(b: seq<Byte>): (r: seq<Byte>)
    requires Tiled(b) && b != [] && !Stops(b)
    ensures Tiled(r) && |r| < |b|
  {
    b[U16(b, RECLEN_AT)..]
  }

  function First(b: seq<Byte>): (e: Record)
    requires Tiled(b) && b != [] && !Stops(b)
    ensures e.Span() == U16(b, RECLEN_AT)
  {
    Dirent(b[..8], b[8..16], b[KIND_AT], b[NAME_AT..U16(b, RECLEN_AT)])
  }

  function Records(b: seq<Byte>): seq<Record>
    requires Tiled(b)
  {
    if b == [] || Stops(b) then [] else [First(b)] + Records(Rest(b))
  }

  /** What follows the last record: nothing, or bytes that begin with a zero-length record. */
  function Residue(b: seq<Byte>): (r: seq<Byte>)
    requires Tiled(b)
    ensures r == [] || Stops(r)
  {
    if b == [] || Stops(b) then b else Residue(Rest(b))
  }

  lemma RecordPieces(b: seq<Byte>, n: nat)
    requires 19 <= n <= |b|
    ensures b[..n] == b[..8] + b[8..16] + [b[16], b[17]] + [b[18]] + b[19..n]
  {
  }

  lemma LengthDigits(b: seq<Byte>)
    requires |b| >= KIND_AT
    ensures var n := U16(b, RECLEN_AT);
      n < RECLEN_LIMIT && n % 256 == b[RECLEN_AT] && n / 256 == b[RECLEN_AT + 1]
  {
  }

  lemma EncodeFirst(b: seq<Byte>)
    requires Tiled(b) && b != [] && !Stops(b)
    ensures Encode(First(b)) == b[..U16(b, RECLEN_AT)]
  {
    RecordPieces(b, U16(b, RECLEN_AT));
    LengthDigits(b);
    hide U16, Tiled, Stops, LittleEndian;
  }

  /** Decoding loses nothing. */
  lemma {:induction false} EncodeRecords(b: seq<Byte>)
    requires Tiled(b)
    ensures EncodeAll(Records(b)) + Residue(b) == b
  {
    if b == [] || Stops(b) {
      assert EncodeAll([]) + b == b;
    } else {
      EncodeRecords(Rest(b));
      EncodeFirst(b);
      PrependRecord(First(b), Records(Rest(b)), Residue(b), Rest(b));
    }
  }

  lemma PrependRecord(e: Record, es: seq<Record>, residue: seq<Byte>, rest: seq<Byte>)
    requires EncodeAll(es) + residue == rest
    ensures EncodeAll([e] + es) + residue == Encode(e) + rest
  {
    EncodeAllCons(e, es);
    Associate(Encode(e), EncodeAll(es), residue);
  }

  lemma Associate(x: seq<Byte>, y: seq<Byte>, z: seq<Byte>)
    ensures (x + y) + z == x + (y + z)
  {
  }

  ghost predicate Fit(es: seq<Record>) {
    forall i :: 0 <= i < |es| ==> es[i].Span() < RECLEN_LIMIT
  }

  lemma DecodeOne(e: Record, rest: seq<Byte>)
    requires e.Span() < RECLEN_LIMIT && Tiled(rest)
    ensures var b := Encode(e) + rest;
      Tiled(b) && !Stops(b) && b != [] && First(b) == e && Rest(b) == rest
  {
    var b := Encode(e) + rest;
    assert U16(b, RECLEN_AT) == e.Span();
    assert b[e.Span()..] == rest;
    assert b[..8] == e.ino && b[8..16] == e.off;
    assert b[NAME_AT..e.Span()] == e.name;
  }

  /** Encoding loses nothing either, as long as every length fits its 16-bit field. */
  lemma {:induction false} RecordsEncode(es: seq<Record>, residue: seq<Byte>)
    requires Fit(es) && (residue == [] || Stops(residue))
    ensures var b := EncodeAll(es) + residue;
      Tiled(b) && Records(b) == es && Residue(b) == residue
  {
    if es == [] {
      assert EncodeAll(es) + residue == residue;
    } else {
      var rest := EncodeAll(es[1..]) + residue;
      RecordsEncode(es[1..], residue);
      DecodeOne(es[0], rest);
      PrependRecord(es[0], es[1..], residue, rest);
      assert es == [es[0]] + es[1..];
    }
  }

  lemma {:induction false} RecordsFit(b: seq<Byte>)
    requires Tiled(b)
    ensures Fit(Records(b))
  {
    if b != [] && !Stops(b) {
      RecordsFit(Rest(b));
    }
  }

  // --------------------------------------------------------------- filtering

  predicate IsHidden(e: Record, hidden: set<nat>) { e.Ino() in hidden }

  /** The plain list filter, the reference for everything below. */
  function Visible(es: seq<Record>, hidden: set<nat>): seq<Record> {
    if es == [] then []
    else (if IsHidden(es[0], hidden) then [] else [es[0]]) + Visible(es[1..], hidden)
  }

  /** The records the filter takes away. */
  function HiddenOnly(es: seq<Record>, hidden: set<nat>): seq<Record> {
    if es == [] then []
    else (if IsHidden(es[0], hidden) then [es[0]] else []) + HiddenOnly(es[1..], hidden)
  }

  /** Number of bytes taken by the hidden records at the front. */
  function HiddenRun(es: seq<Record>, hidden: set<nat>): nat {
    if es == [] || !IsHidden(es[0], hidden) then 0
    else es[0].Span() + HiddenRun(es[1..], hidden)
  }

  function Absorb(e: Record, n: nat): Record {
    e.(name := e.name + Zeros(n))
  }

  /** Each visible record swallows, as zero bytes, the hidden records right behind it. */
  function Merged(es: seq<Record>, hidden: set<nat>): seq<Record> {
    if es == [] then []
    else if IsHidden(es[0], hidden) then Merged(es[1..], hidden)
    else [Absorb(es[0], HiddenRun(es[1..], hidden))] + Merged(es[1..], hidden)
  }

  /** The bytes handed back for a buffer `b`. */
  function Filtered(b: seq<Byte>, hidden: set<nat>): seq<Byte>
    requires Tiled(b)
  {
    EncodeAll(Merged(Records(b), hidden)) + Residue(b)
  }

  function TotalSpan(es: seq<Record>): nat {
    if es == [] then 0 else es[0].Span() + TotalSpan(es[1..])
  }

  lemma {:induction false} EncodeAllLength(es: seq<Record>)
    ensures |EncodeAll(es)| == TotalSpan(es)
  {
    if es != [] {
      EncodeAllLength(es[1..]);
    }
  }
}
