/** Laws of the directory filter: it is the plain list filter, it composes, and it accounts for every byte. */
module FilterLaws {
  import opened Dirents

  // ------------------------------------------- one more record at the end

  /** What a walk that has merged `es` does with the next record `x`. */
  function MergeStep(merged: seq<Record>, x: Record, hidden: set<nat>): seq<Record> {
    if !IsHidden(x, hidden) then merged + [x]
    else if merged == [] then []
    else merged[..|merged| - 1] + [Absorb(merged[|merged| - 1], x.Span())]
  }

  lemma AbsorbTwice(e: Record, m: nat, n: nat)
    ensures Absorb(Absorb(e, m), n) == Absorb(e, m + n)
    ensures Absorb(e, 0) == e
  {
    assert e.name + Zeros(m) + Zeros(n) == e.name + Zeros(m + n);
    assert e.name + Zeros(0) == e.name;
  }

  lemma {:induction false} HiddenRunSnoc(es: seq<Record>, x: Record, hidden: set<nat>)
    ensures HiddenRun(es + [x], hidden) ==
            HiddenRun(es, hidden) + if Visible(es, hidden) == [] && IsHidden(x, hidden) then x.Span() else 0
  {
    if es != [] && IsHidden(es[0], hidden) {
      assert (es + [x])[1..] == es[1..] + [x];
      HiddenRunSnoc(es[1..], x, hidden);
    }
  }

  lemma {:induction false} MergedCount(es: seq<Record>, hidden: set<nat>)
    ensures |Merged(es, hidden)| == |Visible(es, hidden)|
  {
    if es != [] {
      MergedCount(es[1..], hidden);
    }
  }

  /** The declarative merge can be computed left to right, one record at a time. */
  lemma {:induction false} MergedSnoc(es: seq<Record>, x: Record, hidden: set<nat>)
    ensures Merged(es + [x], hidden) == MergeStep(Merged(es, hidden), x, hidden)
  {
    if es == [] {
      assert es + [x] == [x];
      AbsorbTwice(x, 0, 0);
    } else {
      var rest := es[1..];
      assert (es + [x])[1..] == rest + [x];
      MergedSnoc(rest, x, hidden);
      if !IsHidden(es[0], hidden) {
        HiddenRunSnoc(rest, x, hidden);
        MergedCount(rest, hidden);
        AbsorbTwice(es[0], HiddenRun(rest, hidden), x.Span());
      }
    }
  }

  // ------------------------------------------------------ what a reader sees

  /** A record as `readdir` reports it: everything but the length and the bytes after the name's NUL. */
  datatype Listed = Listed(ino: seq<Byte>, off: seq<Byte>, kind: Byte, name: seq<Byte>)

  function UpToZero(b: seq<Byte>): (s: seq<Byte>) {
    if b == [] || b[0] == 0 then [] else [b[0]] + UpToZero(b[1..])
  }

  function View(e: Record): Listed {
    Listed(e.ino, e.off, e.kind, UpToZero(e.name))
  }

  function Views(es: seq<Record>): seq<Listed> {
    if es == [] then [] else [View(es[0])] + Views(es[1..])
  }

  lemma {:induction false} UpToZeroPadded(b: seq<Byte>, n: nat)
    ensures UpToZero(b + Zeros(n)) == UpToZero(b)
  {
    if b == [] {
      assert b + Zeros(n) == Zeros(n);
    } else {
      assert (b + Zeros(n))[1..] == b[1..] + Zeros(n);
      UpToZeroPadded(b[1..], n);
    }
  }

  /** Filtering is list filtering: the merged records show exactly the visible ones, in order. */
  lemma {:induction false} MergedShowsVisible(es: seq<Record>, hidden: set<nat>)
    ensures Views(Merged(es, hidden)) == Views(Visible(es, hidden))
  {
    if es != [] {
      MergedShowsVisible(es[1..], hidden);
      if IsHidden(es[0], hidden) {
        assert Visible(es, hidden) == Visible(es[1..], hidden);
      } else {
        var e := Absorb(es[0], HiddenRun(es[1..], hidden));
        UpToZeroPadded(es[0].name, HiddenRun(es[1..], hidden));
        assert Merged(es, hidden)[1..] == Merged(es[1..], hidden);
        assert Visible(es, hidden)[1..] == Visible(es[1..], hidden);
      }
    }
  }

  /** `e` is `v` with zero bytes behind its name. */
  predicate PaddedFrom(e: Record, v: Record) {
    |v.name| <= |e.name| && e == Absorb(v, |e.name| - |v.name|)
  }

  /** Each merged record is the visible one, every byte of it, followed by zeros. */
  lemma {:induction false} MergedPadsVisible(es: seq<Record>, hidden: set<nat>)
    ensures |Merged(es, hidden)| == |Visible(es, hidden)|
    ensures forall i :: 0 <= i < |Visible(es, hidden)| ==> PaddedFrom(Merged(es, hidden)[i], Visible(es, hidden)[i])
  {
    if es != [] {
      MergedPadsVisible(es[1..], hidden);
      var m, v := Merged(es, hidden), Visible(es, hidden);
      if IsHidden(es[0], hidden) {
        assert v == Visible(es[1..], hidden);
      } else {
        assert v == [es[0]] + Visible(es[1..], hidden);
        assert PaddedFrom(m[0], v[0]);
        assert forall i :: 0 < i < |v| ==>
          m[i] == Merged(es[1..], hidden)[i - 1] && v[i] == Visible(es[1..], hidden)[i - 1];
      }
    }
  }

  // ------------------------------------------------------------ byte accounts

  /** The only bytes that disappear are those of the hidden records at the front. */
  lemma {:induction false} SpansKept(es: seq<Record>, hidden: set<nat>)
    ensures TotalSpan(Merged(es, hidden)) + HiddenRun(es, hidden) == TotalSpan(es)
  {
    if es != [] {
      SpansKept(es[1..], hidden);
      if !IsHidden(es[0], hidden) {
        assert Merged(es, hidden)[1..] == Merged(es[1..], hidden);
      }
    }
  }

  lemma FilteredLength(b: seq<Byte>, hidden: set<nat>)
    requires Tiled(b)
    ensures |Filtered(b, hidden)| + HiddenRun(Records(b), hidden) == |b|
    ensures |Filtered(b, hidden)| == TotalSpan(Merged(Records(b), hidden)) + |Residue(b)|
  {
    var es := Records(b);
    EncodeRecords(b);
    EncodeAllLength(es);
    EncodeAllLength(Merged(es, hidden));
    SpansKept(es, hidden);
  }

  /** Nothing to hide: the buffer comes back as it is. */
  lemma {:induction false} MergedNothing(es: seq<Record>, hidden: set<nat>)
    requires forall e :: e in es ==> !IsHidden(e, hidden)
    ensures Merged(es, hidden) == es
  {
    if es != [] {
      MergedNothing(es[1..], hidden);
      AbsorbTwice(es[0], 0, 0);
    }
  }

  lemma FilteredNothing(b: seq<Byte>)
    requires Tiled(b)
    ensures Filtered(b, {}) == b
  {
    MergedNothing(Records(b), {});
    EncodeRecords(b);
  }

  // -------------------------------------------- when the 16-bit length is enough

  /** Every visible record, with the hidden ones right behind it, is shorter than 2^16. */
  predicate RunsFit(es: seq<Record>, hidden: set<nat>) {
    es == [] ||
    ((!IsHidden(es[0], hidden) ==> es[0].Span() + HiddenRun(es[1..], hidden) < RECLEN_LIMIT) &&
     RunsFit(es[1..], hidden))
  }

  lemma {:induction false} RunsFitMeansFit(es: seq<Record>, hidden: set<nat>)
    ensures RunsFit(es, hidden) <==> Fit(Merged(es, hidden))
  {
    if es != [] {
      RunsFitMeansFit(es[1..], hidden);
      if !IsHidden(es[0], hidden) {
        var m := Merged(es[1..], hidden);
        assert Merged(es, hidden)[1..] == m;
        assert Fit(Merged(es, hidden)) ==> Fit(m) by {
          assert forall i :: 0 <= i < |m| ==> m[i] == Merged(es, hidden)[i + 1];
        }
        assert Merged(es, hidden)[0].Span() == es[0].Span() + HiddenRun(es[1..], hidden);
      }
    }
  }

  /** The output decodes to the merged records exactly when no run outgrows the 16-bit length field. */
  lemma DecodesIffRunsFit(b: seq<Byte>, hidden: set<nat>)
    requires Tiled(b)
    ensures var out := Filtered(b, hidden);
      (Tiled(out) && Records(out) == Merged(Records(b), hidden) && Residue(out) == Residue(b))
      <==> RunsFit(Records(b), hidden)
  {
    var out := Filtered(b, hidden);
    var merged := Merged(Records(b), hidden);
    RunsFitMeansFit(Records(b), hidden);
    if Fit(merged) {
      RecordsEncode(merged, Residue(b));
    } else if Tiled(out) {
      RecordsFit(out);
    }
  }

  /** A buffer below 64 KiB always qualifies. */
  lemma SmallBuffersFit(b: seq<Byte>, hidden: set<nat>)
    requires Tiled(b) && |b| < RECLEN_LIMIT
    ensures RunsFit(Records(b), hidden)
  {
    EncodeRecords(b);
    EncodeAllLength(Records(b));
    ShortListsFit(Records(b), hidden);
  }

  lemma {:induction false} ShortListsFit(es: seq<Record>, hidden: set<nat>)
    requires TotalSpan(es) < RECLEN_LIMIT
    ensures RunsFit(es, hidden)
  {
    if es != [] {
      SpansKept(es[1..], hidden);
      ShortListsFit(es[1..], hidden);
    }
  }

  lemma EncodedLength(e: Record, residue: seq<Byte>)
    ensures U16(EncodeAll([e]) + residue, RECLEN_AT) == e.Span() % RECLEN_LIMIT
  {
    assert [e] + [] == [e];
    EncodeAllCons(e, []);
    assert EncodeAll([e]) == Encode(e) + [];
  }

  function Copies(e: Record, n: nat): seq<Record> { seq(n, _ => e) }

  lemma {:induction false} HiddenCopies(e: Record, n: nat, hidden: set<nat>)
    requires IsHidden(e, hidden)
    ensures HiddenRun(Copies(e, n), hidden) == n * e.Span()
    ensures Merged(Copies(e, n), hidden) == [] && RunsFit(Copies(e, n), hidden)
  {
    if n > 0 {
      assert Copies(e, n)[1..] == Copies(e, n - 1);
      HiddenCopies(e, n - 1, hidden);
    }
  }

  /** A 24-byte record: a name of up to four bytes and its NUL. */
  function ShortRecord(ino: Byte, letter: Byte): (e: Record)
    ensures e.Span() == 24
  {
    Dirent([ino] + Zeros(7), Zeros(8), 8, [letter] + Zeros(4))
  }

  /** A directory with one visible file, followed by n links to a hidden one. */
  function Links(n: nat): seq<Record> { [ShortRecord(2, 97)] + Copies(ShortRecord(1, 98), n) }

  /** The visible record's length field wraps exactly from 2730 links on. A wrapped length below a
      record's header, such as the 8 that 2730 links give, leaves a listing that cannot be read. */
  lemma ManyLinksWrapIff(n: nat)
    ensures var b := EncodeAll(Links(n)) + [];
      Tiled(b) && Records(b) == Links(n) && Residue(b) == [] &&
      (RunsFit(Links(n), {1}) <==> n < 2730) &&
      U16(Filtered(b, {1}), RECLEN_AT) == 24 * (n + 1) % RECLEN_LIMIT &&
      (0 < 24 * (n + 1) % RECLEN_LIMIT < NAME_AT ==> !Tiled(Filtered(b, {1})))
  {
    hide LittleEndian;
    var shown, gone := ShortRecord(2, 97), ShortRecord(1, 98);
    var links := Links(n);
    RecordsEncode(links, []);
    InoOfBytes(shown);
    InoOfBytes(gone);
    assert links[1..] == Copies(gone, n);
    HiddenCopies(gone, n, {1});
    assert Merged(links, {1}) == [Absorb(shown, n * 24)];
    EncodedLength(Absorb(shown, n * 24), []);
  }

  // ------------------------------------------------------------- composition

  lemma {:induction false} HiddenRunMerged(es: seq<Record>, a: set<nat>, b: set<nat>)
    ensures HiddenRun(es, a) + HiddenRun(Merged(es, a), b) == HiddenRun(es, a + b)
  {
    if es != [] && IsHidden(es[0], a + b) {
      HiddenRunMerged(es[1..], a, b);
      if !IsHidden(es[0], a) {
        assert Merged(es, a)[1..] == Merged(es[1..], a);
      }
    }
  }

  /** Two filters in a row are one filter for the union of their hidden inodes. */
  lemma {:induction false} MergedTwice(es: seq<Record>, a: set<nat>, b: set<nat>)
    ensures Merged(Merged(es, a), b) == Merged(es, a + b)
  {
    if es != [] {
      var rest := es[1..];
      MergedTwice(rest, a, b);
      if !IsHidden(es[0], a) {
        assert Merged(es, a)[1..] == Merged(rest, a);
        if !IsHidden(es[0], b) {
          HiddenRunMerged(rest, a, b);
          AbsorbTwice(es[0], HiddenRun(rest, a), HiddenRun(Merged(rest, a), b));
        }
      }
    }
  }

  /** The same on bytes. */
  lemma FilteredTwice(buf: seq<Byte>, a: set<nat>, b: set<nat>)
    requires Tiled(buf) && RunsFit(Records(buf), a)
    ensures Tiled(Filtered(buf, a)) && Filtered(Filtered(buf, a), b) == Filtered(buf, a + b)
  {
    DecodesIffRunsFit(buf, a);
    MergedTwice(Records(buf), a, b);
  }

  lemma FilteredIdempotentAndCommutes(buf: seq<Byte>, a: set<nat>, b: set<nat>)
    requires Tiled(buf) && RunsFit(Records(buf), a) && RunsFit(Records(buf), b)
    ensures Tiled(Filtered(buf, a)) && Tiled(Filtered(buf, b))
    ensures Filtered(Filtered(buf, a), a) == Filtered(buf, a)
    ensures Filtered(Filtered(buf, a), b) == Filtered(Filtered(buf, b), a)
  {
    FilteredTwice(buf, a, a);
    FilteredTwice(buf, a, b);
    FilteredTwice(buf, b, a);
    assert a + a == a && a + b == b + a;
  }

  // ---------------------------------------------------- reading a directory

  ghost predicate Chunk(c: seq<Byte>, hidden: set<nat>) {
    c != [] && Tiled(c) && Residue(c) == [] && RunsFit(Records(c), hidden)
  }

  /** The chunks a directory arrives in: whole records, none empty. */
  ghost predicate Chunks(cs: seq<seq<Byte>>, hidden: set<nat>) {
    forall i :: 0 <= i < |cs| ==> Chunk(cs[i], hidden)
  }

  ghost predicate WhollyHidden(c: seq<Byte>, hidden: set<nat>)
    requires Tiled(c)
  {
    Visible(Records(c), hidden) == []
  }

  /** A reader calls until a call returns 0, and lists what each call returned. */
  ghost function ReaderSees(cs: seq<seq<Byte>>, hidden: set<nat>): seq<Listed>
    requires Chunks(cs, hidden)
  {
    if cs == [] || Filtered(cs[0], hidden) == [] then []
    else
      DecodesIffRunsFit(cs[0], hidden);
      Views(Records(Filtered(cs[0], hidden))) + ReaderSees(cs[1..], hidden)
  }

  /** The whole directory through the plain list filter. */
  ghost function DirectoryShows(cs: seq<seq<Byte>>, hidden: set<nat>): seq<Listed>
    requires Chunks(cs, hidden)
  {
    if cs == [] then []
    else Views(Visible(Records(cs[0]), hidden)) + DirectoryShows(cs[1..], hidden)
  }

  /** The chunks before the first wholly hidden one. */
  ghost function BeforeGap(cs: seq<seq<Byte>>, hidden: set<nat>): (r: seq<seq<Byte>>)
    requires Chunks(cs, hidden)
    ensures r <= cs
    ensures |r| < |cs| ==> WhollyHidden(cs[|r|], hidden)
    ensures forall i :: 0 <= i < |r| ==> !WhollyHidden(cs[i], hidden)
  {
    hide Tiled, Records, Residue, RunsFit, Visible;
    if cs == [] || WhollyHidden(cs[0], hidden) then [] else [cs[0]] + BeforeGap(cs[1..], hidden)
  }

  /** A call returns 0 exactly when its chunk is wholly hidden. */
  lemma ReturnsZeroIffWhollyHidden(c: seq<Byte>, hidden: set<nat>)
    requires Tiled(c) && Residue(c) == []
    ensures Filtered(c, hidden) == [] <==> WhollyHidden(c, hidden)
  {
    MergedCount(Records(c), hidden);
    EncodeAllLength(Merged(Records(c), hidden));
  }

  /** A whole run of the reader. */
  lemma {:induction false} ReaderStopsAtGap(cs: seq<seq<Byte>>, hidden: set<nat>)
    requires Chunks(cs, hidden)
    ensures ReaderSees(cs, hidden) == DirectoryShows(BeforeGap(cs, hidden), hidden)
  {
    if cs != [] {
      ReturnsZeroIffWhollyHidden(cs[0], hidden);
      if !WhollyHidden(cs[0], hidden) {
        DecodesIffRunsFit(cs[0], hidden);
        MergedShowsVisible(Records(cs[0]), hidden);
        ReaderStopsAtGap(cs[1..], hidden);
        assert BeforeGap(cs, hidden)[1..] == BeforeGap(cs[1..], hidden);
      }
    }
  }

  lemma {:induction false} DirectoryShowsAppend(cs: seq<seq<Byte>>, ds: seq<seq<Byte>>, hidden: set<nat>)
    requires Chunks(cs + ds, hidden)
    ensures Chunks(cs, hidden) && Chunks(ds, hidden)
    ensures DirectoryShows(cs + ds, hidden) == DirectoryShows(cs, hidden) + DirectoryShows(ds, hidden)
  {
    hide Tiled, Records, Residue, RunsFit, Visible, Views;
    assert forall i :: 0 <= i < |cs| ==> cs[i] == (cs + ds)[i];
    assert forall i :: 0 <= i < |ds| ==> ds[i] == (cs + ds)[|cs| + i];
    if cs == [] {
      assert cs + ds == ds;
    } else {
      assert (cs + ds)[1..] == cs[1..] + ds;
      DirectoryShowsAppend(cs[1..], ds, hidden);
    }
  }

  ghost predicate AllHidden(cs: seq<seq<Byte>>, hidden: set<nat>)
    requires Chunks(cs, hidden)
  {
    forall i :: 0 <= i < |cs| ==> WhollyHidden(cs[i], hidden)
  }

  lemma {:induction false} ShowsNothingIffAllHidden(cs: seq<seq<Byte>>, hidden: set<nat>)
    requires Chunks(cs, hidden)
    ensures DirectoryShows(cs, hidden) == [] <==> AllHidden(cs, hidden)
  {
    if cs != [] {
      ShowsNothingIffAllHidden(cs[1..], hidden);
      assert AllHidden(cs, hidden) <==> WhollyHidden(cs[0], hidden) && AllHidden(cs[1..], hidden) by {
        assert forall i :: 0 < i < |cs| ==> cs[i] == cs[1..][i - 1];
      }
    }
  }

  /** The listing is complete exactly when nothing visible comes after a wholly hidden chunk. */
  lemma ReaderCompleteIff(cs: seq<seq<Byte>>, hidden: set<nat>)
    requires Chunks(cs, hidden)
    ensures ReaderSees(cs, hidden) == DirectoryShows(cs, hidden) <==>
            AllHidden(cs[|BeforeGap(cs, hidden)|..], hidden)
  {
    var before := BeforeGap(cs, hidden);
    var after := cs[|before|..];
    assert cs == before + after;
    ReaderStopsAtGap(cs, hidden);
    DirectoryShowsAppend(before, after, hidden);
    ShowsNothingIffAllHidden(after, hidden);
  }

  /** A chunk that holds one record. */
  function Alone(e: Record): seq<Byte> { EncodeAll([e]) + [] }

  lemma AloneIsChunk(e: Record, hidden: set<nat>)
    requires e.Span() < RECLEN_LIMIT
    ensures Chunk(Alone(e), hidden) && Records(Alone(e)) == [e]
    ensures WhollyHidden(Alone(e), hidden) <==> IsHidden(e, hidden)
  {
    RecordsEncode([e], []);
    EncodeAllLength([e]);
    assert [e][1..] == [];
    assert HiddenRun([], hidden) == 0 && Visible([], hidden) == [] && RunsFit([], hidden);
  }

  /** A hidden record alone in the first chunk keeps the reader from the visible one in the second. */
  lemma ReaderMissesAfterGap(gone: Record, shown: Record, hidden: set<nat>)
    requires IsHidden(gone, hidden) && !IsHidden(shown, hidden)
    requires gone.Span() < RECLEN_LIMIT && shown.Span() < RECLEN_LIMIT
    ensures var cs := [Alone(gone), Alone(shown)];
      Chunks(cs, hidden) && ReaderSees(cs, hidden) == [] && DirectoryShows(cs, hidden) != []
  {
    AloneIsChunk(gone, hidden);
    AloneIsChunk(shown, hidden);
    hide Alone, Chunk, WhollyHidden, RunsFit, Filtered;
    var cs := [Alone(gone), Alone(shown)];
    assert forall i :: 0 <= i < |cs| ==> Chunk(cs[i], hidden);
    ReturnsZeroIffWhollyHidden(cs[0], hidden);
    ShowsNothingIffAllHidden(cs, hidden);
    assert !WhollyHidden(cs[1], hidden);
  }
}
