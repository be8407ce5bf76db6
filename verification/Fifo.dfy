/** The storage operations as steps on a partition and its two indices, and what every run of
    them keeps. */
module Fifo {
  import opened Division
  import opened Bytes
  import opened Crc
  import opened RecordFormat
  import opened Recovery
  import opened Errors

  const MINIMUM_EMPTY_SPACE: nat := 512

  /** A partition with the read and write index held in RAM. */
  datatype Disk = Disk(mem: seq<byte>, rd: nat, wr: nat)

  /** `reset_area`: everything erased. */
  function Reset(size: nat): Disk { Disk(Blank(size), 0, 0) }

  predicate Fits(block: BlockSize, d: Disk, size: nat) {
    d.wr + Span(block, size) <= |d.mem|
  }

  function Pushed(block: BlockSize, d: Disk, r: Record): Disk
    requires Fits(block, d, |r|)
  {
    Disk(Overlay(d.mem, d.wr, Image(block, r)), d.rd, d.wr + Span(block, |r|))
  }

  function AfterPush(block: BlockSize, d: Disk, r: Record): Disk {
    if 0 < |r| && Fits(block, d, |r|) then Pushed(block, d, r) else d
  }

  const ZERO_HEADER: seq<byte> := [0, 0, 0, 0, 0, 0, 0, 0]

  /** A zeroed header at `at`. */
  function Zeroed(mem: seq<byte>, at: nat): (m: seq<byte>)
    requires at + HEADER <= |mem|
    ensures |m| == |mem|
    ensures forall i :: 0 <= i < |mem| ==> m[i] == if at <= i < at + HEADER then 0 else mem[i]
  {
    Overlay(mem, at, ZERO_HEADER)
  }

  /** The record at the read index has its header zeroed and is skipped. */
  function Dropped(block: BlockSize, d: Disk): Disk
    requires d.rd + HEADER <= |d.mem|
  {
    Disk(Zeroed(d.mem, d.rd),
         d.rd + Span(block, HeaderAt(d.mem, d.rd).size), d.wr)
  }

  /** Nothing left to read and too little room left to write: the area is erased. */
  predicate Exhausted(d: Disk) {
    d.wr <= d.rd && |d.mem| - d.wr < MINIMUM_EMPTY_SPACE
  }

  /** The header at the read index is that of a record. */
  predicate HeadValid(d: Disk) {
    d.rd + HEADER <= |d.mem| && HeaderAt(d.mem, d.rd).magic == RECORD_VALID
  }

  function AfterFree(block: BlockSize, d: Disk): Disk {
    if HeadValid(d) then
      var d' := Dropped(block, d);
      if Exhausted(d') then Reset(|d.mem|) else d'
    else d
  }

  /** The record a successful peek copies. */
  function Head(d: Disk): Record
    requires d.rd + HEADER <= |d.mem| && d.rd + HEADER + HeaderAt(d.mem, d.rd).size <= |d.mem|
  {
    d.mem[d.rd + HEADER..d.rd + HEADER + HeaderAt(d.mem, d.rd).size]
  }

  /** What `storage_peek` answers in any state, with room for `size` bytes. */
  function PeekResult(d: Disk, size: nat): (ret: Ret)
    ensures ret in {NotFound, InvalidState, NoMem, Success}
  {
    if d.rd == d.wr then NotFound
    else if d.rd + HEADER > |d.mem| then InvalidState
    else
      var h := HeaderAt(d.mem, d.rd);
      if size < h.size then NoMem
      else if d.rd + HEADER + h.size > |d.mem| || h.magic != RECORD_VALID
           || h.crc != Crc16(CRC16_SEED, d.mem[d.rd + HEADER..d.rd + HEADER + h.size]) then InvalidState
      else Success
  }

  /** `storage_init`: indices from the bytes, or an erased area if nothing can be found. */
  function Boot(block: BlockSize, mem: seq<byte>): Disk {
    match Recover(block, mem)
    case Found(rd, wr) => Disk(mem, rd, wr)
    case Nothing => Reset(|mem|)
  }

  /** Whatever is in the partition, `storage_init` leaves the read index on a block boundary. */
  lemma BootAligned(block: BlockSize, mem: seq<byte>)
    ensures Aligned(block, Boot(block, mem).rd)
  {
    assert Aligned(block, 0);
    hide Rem, HeaderAt, ScanFrom;
    if HEADER <= |mem| {
      ScanAligned(block, mem, 0, INVALID_INDEX);
    }
  }

  /** The partition holds exactly the queue `q`; everything from the write index on is erased,
      and an empty queue leaves at least 512 bytes or the whole partition to write to. */
  ghost predicate Holds(block: BlockSize, d: Disk, q: seq<Record>) {
    && HEADER <= |d.mem|
    && Layout(block, d.mem, d.rd, q, d.wr)
    && IsErased(d.mem, d.wr, |d.mem|)
    && (q == [] ==> d.wr == 0 || |d.mem| - d.wr >= MINIMUM_EMPTY_SPACE)
  }

  // ---- what pushes and frees keep of a queue, whatever lies behind it

  /** The header slot behind a record that is pushed is the one that was there before. */
  lemma PushLeavesSlot(block: BlockSize, d: Disk, r: Record)
    requires Fits(block, d, |r|)
    ensures var d' := Pushed(block, d, r);
            UnusedAt(d'.mem, d'.wr) <==> UnusedAt(d.mem, d.wr + Span(block, |r|))
  {
    hide Rem, Image, Span, HeaderAt;
    var d' := Pushed(block, d, r);
    if d'.wr + HEADER <= |d.mem| {
      HeaderFrame(d.mem, d'.mem, d'.wr);
    }
  }

  lemma FirstFrame(a: seq<byte>, b: seq<byte>, rd: nat)
    requires |a| == |b| && rd <= |a| && Agree(a, b, 0, rd)
    requires 0 < rd ==> HEADER <= rd && HeaderAt(a, 0).magic == RECORD_INVALID
    ensures 0 < rd ==> HEADER <= rd && HeaderAt(b, 0).magic == RECORD_INVALID
  {
    if 0 < rd {
      HeaderFrame(a, b, 0);
    }
  }

  lemma PushChain(block: BlockSize, d: Disk, q: seq<Record>, r: Record)
    requires d.rd <= |d.mem| && Chain(block, d.mem, d.rd, q, d.wr) && 0 < |r| <= MAX_RECORD && Fits(block, d, |r|)
    ensures Chain(block, Pushed(block, d, r).mem, d.rd, q + [r], d.wr + Span(block, |r|))
    ensures d.rd <= d.wr
  {
    hide Rem, RecordAt, Image, Span, HeaderAt, Chain;
    var d' := Pushed(block, d, r);
    ChainBounds(block, d.mem, d.rd, q, d.wr);
    ImageIsRecord(block, d.mem, d.wr, r);
    ChainFrame(block, d.mem, d'.mem, d.rd, q, d.wr);
    ChainAppend(block, d'.mem, d.rd, q, d.wr, r);
  }

  /** A push that the device takes appends. */
  lemma PushLaid(block: BlockSize, d: Disk, q: seq<Record>, r: Record)
    requires Laid(block, d.mem, d.rd, q, d.wr) && 0 < |r| <= MAX_RECORD && Fits(block, d, |r|)
    ensures var d' := Pushed(block, d, r);
            Laid(block, d'.mem, d'.rd, q + [r], d'.wr) && |d'.mem| == |d.mem|
  {
    hide Rem, Image, Span, HeaderAt, Chain, RecordAt;
    var d' := Pushed(block, d, r);
    PushChain(block, d, q, r);
    FirstFrame(d.mem, d'.mem, d.rd);
  }

  lemma HeadOfLaid(block: BlockSize, d: Disk, q: seq<Record>)
    requires Laid(block, d.mem, d.rd, q, d.wr)
    ensures q == [] <==> d.rd == d.wr
    ensures q != [] ==> && HeadValid(d) && d.rd + Span(block, |q[0]|) <= |d.mem|
                        && RecordAt(block, d.mem, d.rd, q[0])
                        && Dropped(block, d) == Disk(Zeroed(d.mem, d.rd), d.rd + Span(block, |q[0]|), d.wr)
  {
    hide Rem, Zeroed;
    ChainBounds(block, d.mem, d.rd, q, d.wr);
  }

  lemma DropLaid(block: BlockSize, d: Disk, q: seq<Record>)
    requires Laid(block, d.mem, d.rd, q, d.wr)
    ensures q != [] ==>
              && d.rd + HEADER <= |d.mem|
              && var d' := Dropped(block, d);
              Laid(block, d'.mem, d'.rd, q[1..], d'.wr) && |d'.mem| == |d.mem|
  {
    hide Rem, Span, Dropped, Zeroed, HeaderAt, Chain, HeadValid, RecordAt;
    if q != [] {
      HeadOfLaid(block, d, q);
      HeadInside(d);
      DropChain(block, d, q);
      SpanGrows(block, |q[0]|);
      SpanAligned(block, d.rd, |q[0]|);
      ZeroedFirst(d.mem, d.rd);
    }
  }

  lemma HeadInside(d: Disk)
    ensures HeadValid(d) ==> d.rd + HEADER <= |d.mem|
  {
  }

  lemma DropChain(block: BlockSize, d: Disk, q: seq<Record>)
    requires Laid(block, d.mem, d.rd, q, d.wr)
    ensures q != [] ==>
              && d.rd + HEADER <= |d.mem|
              && var next := d.rd + Span(block, |q[0]|);
              next <= d.wr && Chain(block, Zeroed(d.mem, d.rd), next, q[1..], d.wr)
  {
    hide Rem, RecordAt, Span, Dropped, Zeroed, HeaderAt, Chain, Laid, HeadValid;
    if q != [] {
      HeadOfLaid(block, d, q);
      HeadInside(d);
      TailOfChain(block, d, q);
      SpanGrows(block, |q[0]|);
      var next := d.rd + Span(block, |q[0]|);
      ChainBounds(block, d.mem, next, q[1..], d.wr);
      ChainFrame(block, d.mem, Zeroed(d.mem, d.rd), next, q[1..], d.wr);
    }
  }

  lemma TailOfChain(block: BlockSize, d: Disk, q: seq<Record>)
    requires Laid(block, d.mem, d.rd, q, d.wr)
    ensures d.wr <= |d.mem|
    ensures q != [] ==> Chain(block, d.mem, d.rd + Span(block, |q[0]|), q[1..], d.wr)
  {
    hide Rem, RecordAt, Span;
  }

  lemma ResetLaid(block: BlockSize, size: nat)
    ensures Laid(block, Reset(size).mem, 0, [], 0) && UnusedAt(Reset(size).mem, 0)
    ensures Skips(block, Reset(size).mem, 0, 0)
  {
    if HEADER <= size {
      assert HeaderAt(Blank(size), 0).magic == RECORD_UNUSED;
    }
  }

  lemma ExhaustedIsEmpty(block: BlockSize, d: Disk, q: seq<Record>)
    requires Laid(block, d.mem, d.rd, q, d.wr) && Exhausted(d)
    ensures q == []
  {
    hide Rem, RecordAt;
    ChainBounds(block, d.mem, d.rd, q, d.wr);
  }

  /** A free of the oldest record drops it. */
  lemma FreeLaid(block: BlockSize, d: Disk, q: seq<Record>)
    requires Laid(block, d.mem, d.rd, q, d.wr)
    ensures q != [] ==>
              var d' := AfterFree(block, d);
              Laid(block, d'.mem, d'.rd, q[1..], d'.wr) && |d'.mem| == |d.mem|
  {
    hide Laid, Dropped, Span, RecordAt, Exhausted;
    HeadOfLaid(block, d, q);
    DropLaid(block, d, q);
    if q != [] && Exhausted(Dropped(block, d)) {
      ExhaustedIsEmpty(block, Dropped(block, d), q[1..]);
      ResetLaid(block, |d.mem|);
    }
  }

  /** An erased area stores nothing. */
  lemma ResetHoldsNothing(block: BlockSize, size: nat, q: seq<Record>)
    ensures Laid(block, Reset(size).mem, 0, q, 0) <==> q == []
  {
    ResetLaid(block, size);
    hide RecordAt;
    if Laid(block, Reset(size).mem, 0, q, 0) {
      ChainBounds(block, Reset(size).mem, 0, q, 0);
    }
  }

  // ---- in front of an erased tail

  lemma ResetHolds(block: BlockSize, size: nat)
    requires HEADER <= size
    ensures Holds(block, Reset(size), [])
    ensures Boot(block, Blank(size)) == Reset(size)
  {
    assert HeaderAt(Blank(size), 0).magic == RECORD_UNUSED;
  }

  lemma ErasedUnused(mem: seq<byte>, wr: nat)
    requires wr <= |mem| && IsErased(mem, wr, |mem|)
    ensures UnusedAt(mem, wr)
  {
  }

  lemma LayoutEnd(block: BlockSize, d: Disk, q: seq<Record>)
    requires Holds(block, d, q)
    ensures Aligned(block, d.wr) && (q == [] <==> d.rd == d.wr) && (q != [] ==> d.rd + HEADER < d.wr)
  {
    hide Rem, RecordAt;
    ChainBounds(block, d.mem, d.rd, q, d.wr);
    ChainAligned(block, d.mem, d.rd, q, d.wr);
  }

  /** Push appends. */
  lemma PushAppends(block: BlockSize, d: Disk, q: seq<Record>, r: Record)
    requires Holds(block, d, q) && 0 < |r| <= MAX_RECORD && Fits(block, d, |r|)
    ensures Holds(block, Pushed(block, d, r), q + [r])
  {
    hide Laid, Image, Span, HeaderAt;
    var d' := Pushed(block, d, r);
    PushLaid(block, d, q, r);
    ErasedUnused(d'.mem, d'.wr);
  }

  /** Exactly when push appends: a longer record is written with its size cut to 16 bits and is
      not found again as what it was. */
  lemma PushAppendsExactly(block: BlockSize, d: Disk, q: seq<Record>, r: Record)
    requires Holds(block, d, q) && 0 < |r| && Fits(block, d, |r|)
    ensures Holds(block, Pushed(block, d, r), q + [r]) <==> |r| <= MAX_RECORD
    ensures HeaderAt(Pushed(block, d, r).mem, d.wr).size == |r| % 0x1_0000
  {
    hide Rem, RecordAt, Layout, Image, HeaderAt;
    SizeField(d.mem, d.wr, block, r);
    if |r| <= MAX_RECORD {
      PushAppends(block, d, q, r);
    }
    var d' := Pushed(block, d, r);
    if Holds(block, d', q + [r]) {
      LayoutChain(block, d', q + [r]);
      ChainMember(block, d'.mem, d'.rd, q + [r], d'.wr, |q|);
    }
  }

  lemma HoldsLaid(block: BlockSize, d: Disk, q: seq<Record>)
    requires Holds(block, d, q)
    ensures Laid(block, d.mem, d.rd, q, d.wr)
    ensures q == [] ==> !HeadValid(d)
  {
    hide Rem, RecordAt;
  }

  lemma LayoutChain(block: BlockSize, d: Disk, q: seq<Record>)
    requires Holds(block, d, q)
    ensures Chain(block, d.mem, d.rd, q, d.wr)
  {
  }

  lemma SizeField(mem: seq<byte>, at: nat, block: BlockSize, r: Record)
    requires at + Span(block, |r|) <= |mem|
    ensures HeaderAt(Overlay(mem, at, Image(block, r)), at).size == |r| % 0x1_0000
  {
    hide Rem, Body, Crc16, Overlay, Padding;
    var image := Image(block, r);
    var m := Overlay(mem, at, image);
    var header := HeaderBytes(|r|, Crc16(CRC16_SEED, r));
    assert image[2] == header[2] == Low(|r|) && image[3] == header[3] == High(|r|);
    assert m[at + 2] == image[2] && m[at + 3] == image[3];
    SplitWord(|r|);
  }

  lemma SplitWord(w: nat)
    ensures Word(Low(w), High(w)) == w % 0x1_0000
  {
    hide Word, Low, High;
    WordIs(Low(w), High(w));
    LowHigh(w);
    TwoDigits(w);
  }

  lemma TwoDigits(w: nat)
    ensures w % 0x100 + 0x100 * (w / 0x100 % 0x100) == w % 0x1_0000
  {
    var upper := w / 0x100;
    Unique(w, 0x1_0000, upper / 0x100, w % 0x100 + 0x100 * (upper % 0x100));
  }

  lemma ZeroedHeader(mem: seq<byte>, at: nat)
    requires at + HEADER <= |mem|
    ensures HeaderAt(Zeroed(mem, at), at) == Header(RECORD_INVALID, 0, 0)
  {
  }

  lemma ZeroedFirst(mem: seq<byte>, at: nat)
    requires at + HEADER <= |mem|
    requires 0 < at ==> HEADER <= at && HeaderAt(mem, 0).magic == RECORD_INVALID
    ensures HeaderAt(Zeroed(mem, at), 0).magic == RECORD_INVALID
  {
    if 0 < at {
      HeaderFrame(mem, Zeroed(mem, at), 0);
    } else {
      ZeroedHeader(mem, 0);
    }
  }

  /** The oldest record is at the read index and dropping it moves past it. */
  lemma OldestRecord(block: BlockSize, d: Disk, q: seq<Record>)
    requires Holds(block, d, q) && q != []
    ensures d.rd + Span(block, |q[0]|) <= |d.mem| && RecordAt(block, d.mem, d.rd, q[0])
    ensures Chain(block, d.mem, d.rd + Span(block, |q[0]|), q[1..], d.wr)
    ensures HeaderAt(d.mem, d.rd).magic == RECORD_VALID
    ensures Dropped(block, d) == Disk(Zeroed(d.mem, d.rd), d.rd + Span(block, |q[0]|), d.wr)
  {
    hide Rem, Zeroed;
  }

  /** Zeroing the header of the oldest record leaves the younger ones in place. */
  lemma DropKeepsLayout(block: BlockSize, d: Disk, q: seq<Record>)
    requires Holds(block, d, q) && q != []
    ensures d.rd + HEADER <= |d.mem|
    ensures var d' := Dropped(block, d);
            Layout(block, d'.mem, d'.rd, q[1..], d'.wr) && IsErased(d'.mem, d'.wr, |d'.mem|)
  {
    hide Laid, Span, HeaderAt;
    DropLaid(block, d, q);
    ErasedBehind(block, d, q);
    var d' := Dropped(block, d);
    ErasedUnused(d'.mem, d'.wr);
  }

  lemma ErasedBehind(block: BlockSize, d: Disk, q: seq<Record>)
    requires Holds(block, d, q) && q != []
    ensures d.rd + HEADER < d.wr <= |d.mem|
  {
    hide Rem, RecordAt;
    LayoutEnd(block, d, q);
  }

  /** Free drops the oldest record. */
  lemma FreeDrops(block: BlockSize, d: Disk, q: seq<Record>)
    requires Holds(block, d, q)
    ensures Holds(block, AfterFree(block, d), if q == [] then [] else q[1..])
    ensures q == [] ==> AfterFree(block, d) == d
  {
    hide Rem, RecordAt, Span, Dropped, Zeroed;
    LayoutEnd(block, d, q);
    if q != [] {
      OldestRecord(block, d, q);
      DropKeepsLayout(block, d, q);
      var d' := Dropped(block, d);
      ChainBounds(block, d'.mem, d'.rd, q[1..], d'.wr);
      ResetHolds(block, |d.mem|);
    }
  }
}
