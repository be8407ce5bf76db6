/** Power loss inside the write of a header, on flash with write blocks below eight bytes: the serial NOR
    flash that holds the partition on one of the boards is written byte by byte. */
module TornHeaders {
  import opened Division
  import opened Bytes
  import opened RecordFormat
  import opened Recovery
  import opened Fifo
  import opened FifoRuns
  import opened PushOnFlash

  const FIELDS: nat := 6 // header bytes that are read back: magic, size and CRC

  /** A push whose body is in flash, with the first `j` bytes of its header. */
  function HeaderTorn(block: BlockSize, d: Disk, r: Record, j: nat): (m: seq<byte>)
    requires Fits(block, d, |r|) && j <= HEADER
    ensures |m| == |d.mem|
  {
    BodyFits(block, d, r);
    Overlay(Overlay(d.mem, d.wr + HEADER, Body(block, r)), d.wr, PushHeader(r)[..j])
  }

  /** The fields that are not written read as they should all the same. */
  predicate RestThere(d: Disk, r: Record, j: nat)
    requires d.wr + HEADER <= |d.mem|
  {
    forall i :: j <= i < FIELDS ==> d.mem[d.wr + i] == PushHeader(r)[i]
  }

  lemma SlotInside(block: BlockSize, d: Disk, size: nat)
    requires Fits(block, d, size)
    ensures d.wr + HEADER <= d.wr + Span(block, size) <= |d.mem|
  {
  }

  /** From the first byte on, the slot no longer reads as unused. */
  lemma FirstByteShows(block: BlockSize, d: Disk, r: Record, j: nat)
    requires Fits(block, d, |r|) && 1 <= j <= HEADER
    ensures !UnusedAt(HeaderTorn(block, d, r, j), d.wr)
  {
    hide Span, Body, Word, Low, High;
    SlotInside(block, d, |r|);
    LowHigh(RECORD_VALID);
    var m := HeaderTorn(block, d, r, j);
    assert m[d.wr] == PushHeader(r)[0] == Low(RECORD_VALID);
    NotErased(m[d.wr], m[d.wr + 1]);
  }

  lemma NotErased(lo: byte, hi: byte)
    ensures lo != ERASED ==> Word(lo, hi) != RECORD_UNUSED
  {
  }

  /** The record is there if and only if the fields are. */
  lemma TornIsRecordExactly(block: BlockSize, d: Disk, r: Record, j: nat)
    requires Fits(block, d, |r|) && 0 < |r| <= MAX_RECORD && j <= HEADER
    ensures d.wr + HEADER <= |d.mem|
    ensures RecordAt(block, HeaderTorn(block, d, r, j), d.wr, r) <==> RestThere(d, r, j)
  {
    hide Span, Body, Word, PushHeader, Overlay, Image, HeaderAt, RestThere, Pushed, HeaderTorn;
    SlotInside(block, d, |r|);
    var m, p := HeaderTorn(block, d, r, j), Pushed(block, d, r).mem;
    PushedIsRecord(block, d, r);
    SameBody(block, d, r, j);
    if RecordAt(block, m, d.wr, r) {
      FieldsFromHeader(m, p, d.wr);
    }
    if Agree(m, p, d.wr, d.wr + FIELDS) {
      HeaderFromFields(m, p, d.wr);
    }
    FieldsExactly(block, d, r, j);
  }

  lemma PushedIsRecord(block: BlockSize, d: Disk, r: Record)
    requires Fits(block, d, |r|) && 0 < |r| <= MAX_RECORD
    ensures RecordAt(block, Pushed(block, d, r).mem, d.wr, r)
  {
    hide Image, RecordAt, Overlay;
    ImageIsRecord(block, d.mem, d.wr, r);
  }

  lemma FieldsExactly(block: BlockSize, d: Disk, r: Record, j: nat)
    requires Fits(block, d, |r|) && j <= HEADER
    ensures d.wr + HEADER <= |d.mem|
    ensures Agree(HeaderTorn(block, d, r, j), Pushed(block, d, r).mem, d.wr, d.wr + FIELDS) <==> RestThere(d, r, j)
  {
    hide Span, PushHeader, HeaderTorn, Pushed, Fits;
    SlotInside(block, d, |r|);
    TornBytes(block, d, r, j);
    var m, p := HeaderTorn(block, d, r, j), Pushed(block, d, r).mem;
    if Agree(m, p, d.wr, d.wr + FIELDS) {
      forall i | j <= i < FIELDS ensures d.mem[d.wr + i] == PushHeader(r)[i] {
        assert m[d.wr + i] == p[d.wr + i];
      }
    }
    if RestThere(d, r, j) {
      forall k | d.wr <= k < d.wr + FIELDS ensures m[k] == p[k] {
        assert p[d.wr + (k - d.wr)] == PushHeader(r)[k - d.wr];
      }
    }
  }

  /** Which header bytes are whose. */
  lemma TornBytes(block: BlockSize, d: Disk, r: Record, j: nat)
    requires Fits(block, d, |r|) && j <= HEADER
    ensures d.wr + HEADER <= |d.mem|
    ensures var m, p := HeaderTorn(block, d, r, j), Pushed(block, d, r).mem;
            && |m| == |p| == |d.mem|
            && forall i :: 0 <= i < HEADER ==>
                 p[d.wr + i] == PushHeader(r)[i] && m[d.wr + i] == if i < j then PushHeader(r)[i] else d.mem[d.wr + i]
  {
    hide Span, Body, PushHeader, Overlay, Image, Fits, Padding, Rem;
    SlotInside(block, d, |r|);
    BodyFits(block, d, r);
    ImageParts(block, r);
    HeaderParts(d.mem, d.wr, PushHeader(r), Body(block, r), j);
  }

  lemma HeaderParts(mem: seq<byte>, at: nat, h: seq<byte>, body: seq<byte>, j: nat)
    requires |h| == HEADER && j <= HEADER && at + HEADER + |body| <= |mem|
    ensures var m, p := Overlay(Overlay(mem, at + HEADER, body), at, h[..j]), Overlay(mem, at, h + body);
            forall i :: 0 <= i < HEADER ==> p[at + i] == h[i] && m[at + i] == if i < j then h[i] else mem[at + i]
  {
  }

  lemma SameBody(block: BlockSize, d: Disk, r: Record, j: nat)
    requires Fits(block, d, |r|) && j <= HEADER
    ensures var m, p := HeaderTorn(block, d, r, j), Pushed(block, d, r).mem;
            && |m| == |p| == |d.mem| && d.wr + HEADER <= d.wr + Span(block, |r|) <= |d.mem|
            && m[d.wr + HEADER..d.wr + Span(block, |r|)] == p[d.wr + HEADER..d.wr + Span(block, |r|)]
            && (forall i :: 0 <= i < d.wr ==> m[i] == d.mem[i])
            && (forall i :: d.wr + Span(block, |r|) <= i < |d.mem| ==> m[i] == d.mem[i])
  {
    hide Span, Body, PushHeader, Image;
    SlotInside(block, d, |r|);
    BodyFits(block, d, r);
    ImageParts(block, r);
    var m, p, from := HeaderTorn(block, d, r, j), Pushed(block, d, r).mem, d.wr + HEADER;
    forall i | from <= i < d.wr + Span(block, |r|) ensures m[i] == p[i] {
      assert p[i] == Image(block, r)[HEADER + (i - from)] == Body(block, r)[i - from];
    }
  }

  lemma FieldsFromHeader(a: seq<byte>, b: seq<byte>, at: nat)
    requires at + HEADER <= |a| && |a| == |b| && HeaderAt(a, at) == HeaderAt(b, at)
    ensures Agree(a, b, at, at + FIELDS)
  {
    hide Word;
    WordBytes(a[at], a[at + 1], b[at], b[at + 1]);
    WordBytes(a[at + 2], a[at + 3], b[at + 2], b[at + 3]);
    WordBytes(a[at + 4], a[at + 5], b[at + 4], b[at + 5]);
  }

  lemma HeaderFromFields(a: seq<byte>, b: seq<byte>, at: nat)
    requires at + HEADER <= |a| && Agree(a, b, at, at + FIELDS)
    ensures HeaderAt(a, at) == HeaderAt(b, at)
  {
    hide Word;
  }

  // ---- inside a push

  /** Power fails inside the header of a push: the queue before is still laid out, the queue after it
      exactly if the rest of the fields is there. */
  lemma HeaderTornLaid(block: BlockSize, d: Disk, q: seq<Record>, r: Record, j: nat)
    requires Laid(block, d.mem, d.rd, q, d.wr) && Fits(block, d, |r|) && 0 < |r| <= MAX_RECORD && j <= HEADER
    ensures d.wr + HEADER <= |d.mem|
    ensures var m := HeaderTorn(block, d, r, j);
            && Laid(block, m, d.rd, q, d.wr)
            && (RestThere(d, r, j) ==> Laid(block, m, d.rd, q + [r], d.wr + Span(block, |r|)))
            && (UnusedAt(m, d.wr + Span(block, |r|)) <==> UnusedAt(d.mem, d.wr + Span(block, |r|)))
  {
    hide Rem, Body, HeaderAt, Chain, Span, RecordAt, HeaderTorn, RestThere, Pushed, Fits;
    var m := HeaderTorn(block, d, r, j);
    SlotInside(block, d, |r|);
    SameBody(block, d, r, j);
    ChainBounds(block, d.mem, d.rd, q, d.wr);
    ChainFrame(block, d.mem, m, d.rd, q, d.wr);
    FirstFrame(d.mem, m, d.rd);
    TornIsRecordExactly(block, d, r, j);
    if RestThere(d, r, j) {
      ChainAppend(block, m, d.rd, q, d.wr, r);
    }
    if d.wr + Span(block, |r|) + HEADER <= |d.mem| {
      HeaderFrame(d.mem, m, d.wr + Span(block, |r|));
    }
  }

  /** A boot finds the queue before the push, or the one after it with the record in place. */
  ghost predicate BeforeOrAfter(block: BlockSize, d: Disk, r: Record, m: seq<byte>) {
    || Recover(block, m) == Found(d.rd, d.wr)
    || (Recover(block, m) == Found(d.rd, d.wr + Span(block, |r|)) && RecordAt(block, m, d.wr, r))
  }

  /** Exactly when a push is atomic although power fails inside its header: besides what a reboot always
      needs, the fields that were not written must read as they should. With 8-byte blocks nothing is
      missing; with smaller ones that takes a size or CRC with bytes 0xFF. */
  lemma HeaderTornExactly(block: BlockSize, d: Disk, q: seq<Record>, r: Record, j: nat)
    requires Laid(block, d.mem, d.rd, q, d.wr) && Fits(block, d, |r|) && 0 < |r| <= MAX_RECORD && 1 <= j <= HEADER
    ensures d.wr + HEADER <= |d.mem|
    ensures var m, end := HeaderTorn(block, d, r, j), d.wr + Span(block, |r|);
            BeforeOrAfter(block, d, r, m)
            <==> && RestThere(d, r, j)
                 && Skips(block, m, 0, d.rd) && TailSeen(|d.mem|, q + [r], end) && UnusedAt(d.mem, end)
    ensures block == HEADER && Aligned(block, j) ==> RestThere(d, r, j)
  {
    hide Laid, Recover, Skips, TailSeen, UnusedAt, HeaderTorn, RestThere, Span, Fits, Rem, RecordAt;
    SlotInside(block, d, |r|);
    HeaderTornLaid(block, d, q, r, j);
    FirstByteShows(block, d, r, j);
    TornIsRecordExactly(block, d, r, j);
    var m := HeaderTorn(block, d, r, j);
    RecoverExactly(block, m, d.rd, q, d.wr);
    if RestThere(d, r, j) {
      RecoverExactly(block, m, d.rd, q + [r], d.wr + Span(block, |r|));
    }
    if block == HEADER && Aligned(block, j) {
      WholeHeader(d, r, j);
    }
  }

  lemma WholeHeader(d: Disk, r: Record, j: nat)
    requires d.wr + HEADER <= |d.mem| && Aligned(HEADER, j) && 1 <= j
    ensures RestThere(d, r, j)
  {
  }

  /** After two bytes of the header its size reads as 65535: on a partition of up to 64 KiB a reboot puts
      the write index at the end, neither where it was nor behind the record. */
  lemma TwoBytesMoveWriteIndex(block: BlockSize, d: Disk, q: seq<Record>, r: Record)
    requires Holds(block, d, q) && Fits(block, d, |r|) && 0 < |r| <= MAX_RECORD && |d.mem| <= MAX_RECORD
    requires Skips(block, HeaderTorn(block, d, r, 2), 0, d.rd)
    ensures q != [] ==> Recover(block, HeaderTorn(block, d, r, 2)) == Found(d.rd, |d.mem|)
  {
    hide Laid, Skips, HeaderTorn, Span, Fits, Rem, RecordAt, ScanFrom, HeaderAt, Chain, Recover, UnusedAt, RestThere;
    if q != [] {
      var m := HeaderTorn(block, d, r, 2);
      SlotInside(block, d, |r|);
      SpanGrows(block, |r|);
      HeaderTornLaid(block, d, q, r, 2);
      LaidChain(block, m, d.rd, q, d.wr);
      ScanSkips(block, m, 0, d.rd);
      ScanOver(block, m, d.rd, q, d.wr, INVALID_INDEX);
      TwoByteHeader(block, d, q, r);
      ScanEndsAt(block, m, d.wr, d.rd);
      KnownFirst(block, m, d.rd, q, d.wr);
      SettlesAtEnd(block, m, d.rd);
    }
  }

  lemma SettlesAtEnd(block: BlockSize, mem: seq<byte>, rd: nat)
    requires HEADER <= |mem| && KnownMagic(HeaderAt(mem, 0).magic)
    requires ScanFrom(block, mem, 0, INVALID_INDEX) == Indices(rd, INVALID_INDEX)
    ensures Recover(block, mem) == Found(rd, |mem|)
  {
    hide ScanFrom;
  }

  lemma LaidChain(block: BlockSize, mem: seq<byte>, rd: nat, q: seq<Record>, wr: nat)
    requires Laid(block, mem, rd, q, wr)
    ensures rd <= wr <= |mem| && Chain(block, mem, rd, q, wr)
  {
  }

  lemma KnownFirst(block: BlockSize, mem: seq<byte>, rd: nat, q: seq<Record>, wr: nat)
    requires Laid(block, mem, rd, q, wr) && HEADER <= |mem|
    ensures q != [] ==> KnownMagic(HeaderAt(mem, 0).magic)
  {
    hide Rem, Span, HeaderAt;
  }

  lemma TwoByteHeader(block: BlockSize, d: Disk, q: seq<Record>, r: Record)
    requires Holds(block, d, q) && Fits(block, d, |r|)
    ensures d.wr + HEADER <= |d.mem|
    ensures var h := HeaderAt(HeaderTorn(block, d, r, 2), d.wr); h.magic == RECORD_VALID && h.size == 0xFFFF
  {
    hide Span, Body, Holds, Word, Low, High, Overlay;
    SlotInside(block, d, |r|);
    TailErased(block, d, q);
    TornBytes(block, d, r, 2);
    WordOfU16(RECORD_VALID);
    var m := HeaderTorn(block, d, r, 2);
    assert m[d.wr + 0] == PushHeader(r)[0] == U16(RECORD_VALID)[0];
    assert m[d.wr + 1] == PushHeader(r)[1] == U16(RECORD_VALID)[1];
    assert m[d.wr + 2] == m[d.wr + 3] == ERASED;
  }

  lemma ScanEndsAt(block: BlockSize, mem: seq<byte>, at: nat, rd: nat)
    requires at + HEADER <= |mem| <= MAX_RECORD
    requires HeaderAt(mem, at).magic == RECORD_VALID && HeaderAt(mem, at).size == 0xFFFF
    ensures ScanFrom(block, mem, at, rd) == Indices(rd, INVALID_INDEX)
  {
    hide HeaderAt, Rem, Intact;
  }

  /** The smallest such run: one record is stored on 64 bytes with blocks of one, power fails behind the
      second header byte of the next push. The reboot finds a write index of 64, which was 9. */
  lemma TornPushMovesWriteIndex(r: Record, s: Record)
    requires |r| == |s| == 1
    ensures Fits(1, Reset(64), 1)
    ensures var d := Pushed(1, Reset(64), r);
            Fits(1, d, 1) && d.wr == 9 && Recover(1, HeaderTorn(1, d, s, 2)) == Found(0, 64)
  {
    hide Holds, Image, HeaderTorn, Recover;
    ResetHolds(1, 64);
    PushAppends(1, Reset(64), [], r);
    TwoBytesMoveWriteIndex(1, Pushed(1, Reset(64), r), [] + [r], s);
  }

  // ---- inside a free

  /** The first `j` bytes of the oldest header are zeroed. */
  function FreeTorn(d: Disk, j: nat): (m: seq<byte>)
    requires d.rd + HEADER <= |d.mem| && j <= HEADER
    ensures |m| == |d.mem|
  {
    Overlay(d.mem, d.rd, ZERO_HEADER[..j])
  }

  /** Exactly what a boot finds when power fails inside the header of a free: after the first byte at the
      front of the partition nothing, so that everything is erased; otherwise the younger records, under the
      same conditions as ever. What is left of the header is walked over as freed bytes. */
  lemma FreeTornExactly(block: BlockSize, d: Disk, q: seq<Record>, j: nat)
    requires Laid(block, d.mem, d.rd, q, d.wr) && 1 <= j <= HEADER
    ensures q != [] ==>
              && d.rd + HEADER <= |d.mem|
              && var m, next := FreeTorn(d, j), d.rd + Span(block, |q[0]|);
              if j == 1 && d.rd == 0 then Recover(block, m) == Nothing
              else
                && Laid(block, m, next, q[1..], d.wr)
                && (Recover(block, m) == Found(next, d.wr)
                    <==> Skips(block, m, 0, next) && TailSeen(|d.mem|, q[1..], d.wr) && UnusedAt(d.mem, d.wr))
  {
    hide Rem, HeaderAt, Chain, Span, RecordAt, Laid, Skips, TailSeen, FreeTorn, Recover;
    if q != [] {
      HeadOfLaid(block, d, q);
      HeadInside(d);
      var m, next := FreeTorn(d, j), d.rd + Span(block, |q[0]|);
      if j == 1 && d.rd == 0 {
        OneZero(d);
      } else {
        FreeTornLaid(block, d, q, j);
        RecoverExactly(block, m, next, q[1..], d.wr);
      }
    }
  }

  lemma OneZero(d: Disk)
    requires d.rd == 0 && HeadValid(d)
    ensures forall block: BlockSize :: Recover(block, FreeTorn(d, 1)) == Nothing
  {
    var m := FreeTorn(d, 1);
    assert m[0] == 0 && m[1] == d.mem[1];
    LiveBytes(d.mem[0], d.mem[1]);
    WordIs(m[0], m[1]);
  }

  lemma FreeTornLaid(block: BlockSize, d: Disk, q: seq<Record>, j: nat)
    requires Laid(block, d.mem, d.rd, q, d.wr) && 1 <= j <= HEADER && (2 <= j || 0 < d.rd)
    ensures q != [] ==>
              && d.rd + HEADER <= |d.mem|
              && var m, next := FreeTorn(d, j), d.rd + Span(block, |q[0]|);
              Laid(block, m, next, q[1..], d.wr) && (UnusedAt(m, d.wr) <==> UnusedAt(d.mem, d.wr))
  {
    hide Rem, HeaderAt, Chain, Span, RecordAt;
    if q != [] {
      HeadOfLaid(block, d, q);
      HeadInside(d);
      TailOfChain(block, d, q);
      SpanGrows(block, |q[0]|);
      SpanAligned(block, d.rd, |q[0]|);
      var m, next := FreeTorn(d, j), d.rd + Span(block, |q[0]|);
      ChainBounds(block, d.mem, next, q[1..], d.wr);
      ChainFrame(block, d.mem, m, next, q[1..], d.wr);
      FirstZeroed(d, j);
      if d.wr + HEADER <= |d.mem| {
        HeaderFrame(d.mem, m, d.wr);
      }
    }
  }

  lemma FirstZeroed(d: Disk, j: nat)
    requires d.rd + HEADER <= |d.mem| && j <= HEADER
    requires if d.rd == 0 then 2 <= j else HEADER <= d.rd && HeaderAt(d.mem, 0).magic == RECORD_INVALID
    ensures HeaderAt(FreeTorn(d, j), 0).magic == RECORD_INVALID
  {
    hide Word;
    var m := FreeTorn(d, j);
    if d.rd == 0 {
      assert m[0] == m[1] == 0;
      WordIs(0, 0);
    } else {
      HeaderFrame(d.mem, m, 0);
    }
  }

  /** After six zero bytes at the front of a partition with blocks of one or two bytes, the last two bytes
      of the header read as an unused one: a reboot sees an empty queue, whatever is stored. */
  lemma SixZerosHideQueue(block: BlockSize, d: Disk, q: seq<Record>)
    requires Laid(block, d.mem, 0, q, d.wr) && d.rd == 0 && block <= 2 && 14 < |d.mem|
    requires IsErased(d.mem, 6, 8)
    ensures Recover(block, FreeTorn(d, 6)) == Found(6, 6)
  {
    hide Skips, Quiet, Chain, Word, ScanFrom, Rem, FreeTorn, HeaderAt;
    var m := FreeTorn(d, 6);
    SixZeros(d);
    SixIsAligned(block);
    QuietZeros(block, m);
    QuietSkips(block, m, 0, 6);
    ScanSkips(block, m, 0, 6);
    StopsAtSix(block, m);
  }

  /** A run that hides a stored record: push two records with blocks of two bytes, lose power in the free
      of the first behind the sixth byte of its header. The reboot finds an empty queue. */
  lemma TornFreeHidesRecord(size: nat, r: Record, s: Record)
    requires 0 < |r| <= MAX_RECORD && 0 < |s| <= MAX_RECORD && Span(2, |r|) + Span(2, |s|) <= size
    ensures var d := AfterPush(2, AfterPush(2, Reset(size), r), s);
            && d.rd == 0 && HEADER <= |d.mem| && Holds(2, d, [r, s])
            && Recover(2, FreeTorn(d, 6)) == Found(6, 6)
  {
    hide Holds, Image, Recover, FreeTorn, Body, Padding, Rem;
    ResetHolds(2, size);
    PushAppends(2, Reset(size), [], r);
    assert [] + [r] == [r] && [r] + [s] == [r, s];
    var d := Pushed(2, Reset(size), r);
    PushAppends(2, d, [r], s);
    UnusedBytes(2, r);
    var e := Pushed(2, d, s);
    assert e.mem[6] == d.mem[6] == Image(2, r)[6] && e.mem[7] == d.mem[7] == Image(2, r)[7];
    HoldsLaid(2, e, [r, s]);
    SixZerosHideQueue(2, e, [r, s]);
  }

  lemma UnusedBytes(block: BlockSize, r: Record)
    ensures Image(block, r)[6] == Image(block, r)[7] == ERASED
  {
    hide Low, High, Body;
    LowHigh(0xFFFF);
  }

  lemma SixZeros(d: Disk)
    requires d.rd == 0 && 14 < |d.mem| && IsErased(d.mem, 6, 8)
    ensures var m := FreeTorn(d, 6);
            && m[6] == m[7] == ERASED && (forall i :: 0 <= i < 6 ==> m[i] == 0)
            && HeaderAt(m, 0).magic == RECORD_INVALID
  {
    hide Word;
    WordIs(0, 0);
  }

  lemma StopsAtSix(block: BlockSize, m: seq<byte>)
    requires 14 < |m| && m[6] == m[7] == ERASED
    ensures ScanFrom(block, m, 6, INVALID_INDEX) == Indices(INVALID_INDEX, 6)
  {
    hide NextIndex, ChunkedCrc;
  }

  lemma SixIsAligned(block: BlockSize)
    requires block <= 2
    ensures Aligned(block, 6) && Aligned(block, 0)
  {
    DivisionIs(6, block);
  }

  lemma QuietZeros(block: BlockSize, m: seq<byte>)
    requires 8 <= |m| && forall i :: 0 <= i < 6 ==> m[i] == 0
    ensures Quiet(block, m, 6)
  {
    forall p: nat | p < 6 && Aligned(block, p) ensures QuietAt(m, p, 6) {
      LiveBytes(0, 0);
    }
  }
}
