/** The storage operations said in bytes and numbers, without the functions that compute them: what
    `init_area` finds among the headers it visits, what a peek answers, what a push and a free write. */
module ByteLevel {
  import opened Division
  import opened Bytes
  import opened Crc
  import opened RecordFormat
  import opened Recovery
  import opened Fifo
  import opened Errors

  // ---- a record that is whole

  /** Bytes of a record at `at` that the check reads: all of them, or the 64-byte pieces that lie inside the
      partition. */
  function Readable(mem: seq<byte>, at: nat, size: nat): (n: nat)
    requires at <= |mem|
    ensures at + n <= |mem|
  {
    if at + size <= |mem| then size
    else
      DivisionIs(|mem| - at, 64);
      (|mem| - at) / 64 * 64
  }

  /** A header 0xFE 0xFE whose CRC is that of the bytes behind it. */
  predicate Genuine(mem: seq<byte>, at: nat)
    requires at + 8 <= |mem|
  {
    && mem[at] == 0xFE && mem[at + 1] == 0xFE
    && var size := Number(mem[at + 2], mem[at + 3]);
    Number(mem[at + 4], mem[at + 5]) == Crc16(0xFFFF, mem[at + 8..at + 8 + Readable(mem, at + 8, size)])
  }

  predicate Unused(mem: seq<byte>, at: nat)
    requires at + 8 <= |mem|
  {
    mem[at] == 0xFF && mem[at + 1] == 0xFF
  }

  /** The distance to the next header slot: over a record, rounded up to whole blocks, or one block on. */
  function Stride(block: BlockSize, mem: seq<byte>, at: nat): (n: nat)
    requires at + 8 <= |mem|
    ensures 0 < n
  {
    if mem[at] == 0xFE && mem[at + 1] == 0xFE
      then 8 + (Number(mem[at + 2], mem[at + 3]) + block - 1) / block * block
      else block
  }

  /** A chunk that sticks out of the partition is not read, nor is any behind it. */
  lemma {:induction false} ChunkedCrcOutside(mem: seq<byte>, from: nat, size: nat, i: nat, crc: u16)
    requires from <= |mem| < from + size
    ensures |mem| < from + i ==> ChunkedCrc(mem, from, size, i, crc) == crc
    ensures from + i <= |mem| ==>
              var n := (|mem| - from - i) / 64 * 64;
              0 <= n <= |mem| - from - i
              && ChunkedCrc(mem, from, size, i, crc) == Crc16(crc, mem[from + i..from + i + n])
    decreases size - i
  {
    hide Crc16;
    if i < size {
      var len := if i + READ_BUFFER < size then READ_BUFFER else size - i;
      if from + i + len <= |mem| {
        var n := (|mem| - from - i) / 64 * 64;
        var crc' := Crc16(crc, mem[from + i..from + i + 64]);
        ChunkedCrcOutside(mem, from, size, i + READ_BUFFER, crc');
        assert (|mem| - from - (i + 64)) / 64 * 64 == n - 64;
        Crc16Append(crc, mem[from + i..from + i + 64], mem[from + i + 64..from + i + n]);
        assert mem[from + i..from + i + 64] + mem[from + i + 64..from + i + n] == mem[from + i..from + i + n];
      } else {
        ChunkedCrcOutside(mem, from, size, i + READ_BUFFER, crc);
        NothingFed(crc);
        if from + i <= |mem| {
          assert mem[from + i..from + i] == [];
        }
      }
    }
  }

  lemma NothingFed(crc: u16)
    ensures Crc16(crc, []) == crc
  {
  }

  lemma CheckReads(mem: seq<byte>, from: nat, size: nat)
    requires from <= |mem|
    ensures ChunkedCrc(mem, from, size, 0, CRC16_SEED) == Crc16(0xFFFF, mem[from..from + Readable(mem, from, size)])
  {
    hide Crc16;
    if from + size <= |mem| {
      ChunkedCrcIsCrc(mem, from, size, 0, CRC16_SEED);
    } else {
      ChunkedCrcOutside(mem, from, size, 0, CRC16_SEED);
    }
  }

  /** The check of the loop, byte for byte. */
  lemma IntactIsGenuine(mem: seq<byte>, at: nat)
    requires at + 8 <= |mem|
    ensures Intact(mem, at) <==> Genuine(mem, at)
  {
    hide ChunkedCrc, Crc16, Word, Readable;
    WordIs(mem[at], mem[at + 1]);
    WordIs(mem[at + 2], mem[at + 3]);
    WordIs(mem[at + 4], mem[at + 5]);
    CheckReads(mem, at + 8, HeaderAt(mem, at).size);
  }

  lemma HeaderKind(mem: seq<byte>, at: nat)
    requires at + 8 <= |mem|
    ensures HeaderAt(mem, at).magic == RECORD_UNUSED <==> Unused(mem, at)
    ensures HeaderAt(mem, at).magic == RECORD_VALID <==> mem[at] == 0xFE && mem[at + 1] == 0xFE
  {
    WordIs(mem[at], mem[at + 1]);
  }

  lemma NextIsStride(block: BlockSize, mem: seq<byte>, at: nat)
    requires at + 8 <= |mem|
    ensures NextIndex(block, mem, at) == at + Stride(block, mem, at)
  {
    hide Word, Padding;
    HeaderKind(mem, at);
    WordIs(mem[at + 2], mem[at + 3]);
    SpanRoundsUp(block, HeaderAt(mem, at).size);
  }

  lemma SpanRoundsUp(block: BlockSize, size: nat)
    ensures Span(block, size) == 8 + (size + block - 1) / block * block
  {
    hide Rem, Aligned;
    var p := Padding(block, size);
    PaddedIs(block, size);
    Unique(size + block - 1, block, (size + p) / block, block - 1 - p);
  }

  lemma PaddedIs(block: BlockSize, size: nat)
    ensures size + Padding(block, size) == (size + Padding(block, size)) / block * block
  {
    DivisionIs(size + Padding(block, size), block);
  }

  // ---- the headers visited

  /** From one header to the next, until one is unused or fewer than nine bytes are left. */
  function Visits(block: BlockSize, mem: seq<byte>, at: nat): (v: seq<nat>)
    requires at + 8 <= |mem|
    ensures |v| > 0 && v[0] == at && forall i :: 0 <= i < |v| ==> v[i] + 8 <= |mem|
    decreases |mem| - at
  {
    if Unused(mem, at) || at + Stride(block, mem, at) + 8 >= |mem| then [at]
    else [at] + Visits(block, mem, at + Stride(block, mem, at))
  }

  /** `p` is the first header in `v` that is a whole record. */
  ghost predicate FirstGenuine(mem: seq<byte>, v: seq<nat>, p: nat)
    requires forall i :: 0 <= i < |v| ==> v[i] + 8 <= |mem|
  {
    exists i :: 0 <= i < |v| && v[i] == p && Genuine(mem, p) && forall j :: 0 <= j < i ==> !Genuine(mem, v[j])
  }

  ghost predicate NoneGenuine(mem: seq<byte>, v: seq<nat>)
    requires forall i :: 0 <= i < |v| ==> v[i] + 8 <= |mem|
  {
    forall i :: 0 <= i < |v| ==> !Genuine(mem, v[i])
  }

  /** What the loop leaves: the first whole record it visits, and the unused header it stops at. */
  lemma {:induction false} ScanFindsFirst(block: BlockSize, mem: seq<byte>, at: nat)
    requires at + 8 <= |mem|
    ensures var v, s := Visits(block, mem, at), ScanFrom(block, mem, at, INVALID_INDEX);
            && s.wr == (if Unused(mem, v[|v| - 1]) then v[|v| - 1] else -1)
            && (if NoneGenuine(mem, v) then s.rd == -1 else 0 <= s.rd && FirstGenuine(mem, v, s.rd))
    decreases |mem| - at
  {
    hide Genuine, Unused, Stride, Intact, NextIndex, HeaderAt;
    HeaderKind(mem, at);
    IntactIsGenuine(mem, at);
    NextIsStride(block, mem, at);
    var v, next := Visits(block, mem, at), at + Stride(block, mem, at);
    if Unused(mem, at) || next + 8 >= |mem| {
      assert Genuine(mem, at) ==> FirstGenuine(mem, v, at);
    } else {
      var w := Visits(block, mem, next);
      assert v == [at] + w;
      assert v[|v| - 1] == w[|w| - 1];
      ScanFindsFirst(block, mem, next);
      ScanStop(block, mem, next, at);
      if Genuine(mem, at) {
        assert v[0] == at;
        assert FirstGenuine(mem, v, at);
      } else {
        Later(mem, at, w, ScanFrom(block, mem, next, INVALID_INDEX).rd);
      }
    }
  }

  /** A read index that is set does not change where the loop stops. */
  lemma {:induction false} ScanStop(block: BlockSize, mem: seq<byte>, at: nat, rd: nat)
    requires at + 8 <= |mem|
    ensures ScanFrom(block, mem, at, rd) == Indices(rd, ScanFrom(block, mem, at, INVALID_INDEX).wr)
    decreases |mem| - at
  {
    hide Intact, HeaderAt;
    var next := NextIndex(block, mem, at);
    if HeaderAt(mem, at).magic != RECORD_UNUSED && next + HEADER < |mem| {
      ScanStop(block, mem, next, rd);
      if Intact(mem, at) {
        ScanStop(block, mem, next, at);
      }
    }
  }

  lemma Later(mem: seq<byte>, at: nat, w: seq<nat>, p: int)
    requires at + 8 <= |mem| && !Genuine(mem, at) && forall i :: 0 <= i < |w| ==> w[i] + 8 <= |mem|
    ensures NoneGenuine(mem, [at] + w) <==> NoneGenuine(mem, w)
    ensures 0 <= p && FirstGenuine(mem, w, p) ==> FirstGenuine(mem, [at] + w, p)
  {
    hide Genuine;
    var v := [at] + w;
    assert forall i :: 0 <= i < |w| ==> v[i + 1] == w[i];
    if NoneGenuine(mem, v) {
      forall i | 0 <= i < |w| ensures !Genuine(mem, w[i]) {
        assert v[i + 1] == w[i];
      }
    }
    if 0 <= p && FirstGenuine(mem, w, p) {
      var i :| 0 <= i < |w| && w[i] == p && Genuine(mem, p) && forall j :: 0 <= j < i ==> !Genuine(mem, w[j]);
      assert v[i + 1] == p;
    }
  }

  /** The first two bytes of a partition that was written by this code, or of an erased one. */
  predicate Known(lo: byte, hi: byte) { lo == hi && lo in {0xFF, 0xFE, 0} }

  /** What a boot finds in any bytes: the read index is the first visited header that is a whole record, the
      write index the first that is unused. Without an unused one the partition is full, without a record
      it is empty, without either, or with an unknown beginning, there is nothing. */
  lemma RecoverFindsFirst(block: BlockSize, mem: seq<byte>)
    ensures if |mem| < 8 || !Known(mem[0], mem[1]) then Recover(block, mem) == Nothing
            else
              var v := Visits(block, mem, 0);
              var stop := v[|v| - 1];
              if NoneGenuine(mem, v) then
                Recover(block, mem) == if Unused(mem, stop) then Found(stop, stop) else Nothing
              else
                && Recover(block, mem).Found?
                && FirstGenuine(mem, v, Recover(block, mem).rd)
                && Recover(block, mem).wr == if Unused(mem, stop) then stop else |mem|
  {
    hide Genuine, Unused, Visits, ScanFrom, Word;
    if 8 <= |mem| {
      WordIs(mem[0], mem[1]);
      ScanFindsFirst(block, mem, 0);
    }
  }

  /** A read index that names something names a whole record, and no header visited before is one. */
  lemma FoundIsGenuine(block: BlockSize, mem: seq<byte>, rd: nat, wr: nat)
    requires Recover(block, mem) == Found(rd, wr)
    ensures rd != wr ==>
              && rd + 8 <= |mem| && 8 <= |mem| && Genuine(mem, rd)
              && (var size := Number(mem[rd + 2], mem[rd + 3]);
                  rd + 8 + size <= |mem| ==>
                    Number(mem[rd + 4], mem[rd + 5]) == Crc16(0xFFFF, mem[rd + 8..rd + 8 + size]))
              && FirstGenuine(mem, Visits(block, mem, 0), rd)
  {
    hide Unused, Visits, Recover, Crc16;
    RecoverFindsFirst(block, mem);
  }

  // ---- the other operations, byte for byte

  /** Every answer of a peek: success exactly for a whole record that lies inside the partition and has room
      in the buffer, and then the bytes it copies have the CRC of the header. */
  lemma PeekExactly(d: Disk, size: nat)
    ensures PeekResult(d, size) == NotFound <==> d.rd == d.wr
    ensures d.rd != d.wr && d.rd + 8 > |d.mem| ==> PeekResult(d, size) == InvalidState
    ensures d.rd != d.wr && d.rd + 8 <= |d.mem| ==>
              var n := Number(d.mem[d.rd + 2], d.mem[d.rd + 3]);
              && PeekResult(d, size) == (if size < n then NoMem
                                         else if d.rd + 8 + n <= |d.mem| && Genuine(d.mem, d.rd) then Success
                                         else InvalidState)
              && (PeekResult(d, size) == Success ==>
                    && d.rd + 8 + HeaderAt(d.mem, d.rd).size <= |d.mem| && Head(d) == d.mem[d.rd + 8..d.rd + 8 + n]
                    && Crc16(0xFFFF, Head(d)) == Number(d.mem[d.rd + 4], d.mem[d.rd + 5]))
  {
    hide Crc16, Word;
    if d.rd + 8 <= |d.mem| {
      WordIs(d.mem[d.rd], d.mem[d.rd + 1]);
      WordIs(d.mem[d.rd + 2], d.mem[d.rd + 3]);
      WordIs(d.mem[d.rd + 4], d.mem[d.rd + 5]);
    }
  }

  /** A free zeroes eight bytes and moves past the record; it erases the area exactly if nothing is left to
      read and fewer than 512 bytes are left to write. */
  lemma FreeExactly(block: BlockSize, d: Disk)
    ensures if d.rd + 8 > |d.mem| || d.mem[d.rd] != 0xFE || d.mem[d.rd + 1] != 0xFE then AfterFree(block, d) == d
            else
              var next := d.rd + Stride(block, d.mem, d.rd);
              AfterFree(block, d) == if d.wr <= next && |d.mem| - d.wr < 512 then Disk(Blank(|d.mem|), 0, 0)
                                     else Disk(Overlay(d.mem, d.rd, [0, 0, 0, 0, 0, 0, 0, 0]), next, d.wr)
  {
    hide Word, Span, Stride, Overlay, Blank;
    if d.rd + 8 <= |d.mem| {
      HeaderKind(d.mem, d.rd);
      NextIsStride(block, d.mem, d.rd);
    }
  }

  /** There is room for a record if its header and its bytes, rounded up to whole blocks, end inside. */
  lemma FitsExactly(block: BlockSize, d: Disk, size: nat)
    ensures Fits(block, d, size) <==> d.wr + 8 + (size + block - 1) / block * block <= |d.mem|
  {
    hide Span;
    SpanRoundsUp(block, size);
  }

  /** What a push puts into flash, byte for byte. */
  lemma ImageExactly(block: BlockSize, r: Record)
    requires |r| <= 0xFFFF
    ensures var image, n := Image(block, r), |r|;
            && |image| == 8 + (n + block - 1) / block * block
            && image[0] == 0xFE && image[1] == 0xFE && image[6] == 0xFF && image[7] == 0xFF
            && Number(image[2], image[3]) == n && Number(image[4], image[5]) == Crc16(0xFFFF, r)
            && image[8..8 + n] == r
            && forall i :: 8 + n <= i < |image| ==> image[i] == 0xFF
  {
    hide Crc16, Low, High, Span, Padding, Word, Body, HeaderBytes, Image, Number;
    SpanRoundsUp(block, |r|);
    HeaderNumbers(|r|, Crc16(CRC16_SEED, r));
    BodyParts(block, r);
    ImageIsBoth(block, r);
    Joined(HeaderBytes(|r|, Crc16(CRC16_SEED, r)), Body(block, r), r);
  }

  lemma ImageIsBoth(block: BlockSize, r: Record)
    ensures Image(block, r) == HeaderBytes(|r|, Crc16(CRC16_SEED, r)) + Body(block, r)
  {
  }

  lemma Joined(h: seq<byte>, b: seq<byte>, r: seq<byte>)
    requires |h| == 8 && |r| <= |b| && b[..|r|] == r && forall i :: |r| <= i < |b| ==> b[i] == 0xFF
    ensures var s := h + b;
            && (forall i :: 0 <= i < 8 ==> s[i] == h[i])
            && s[8..8 + |r|] == r && forall i :: 8 + |r| <= i < |s| ==> s[i] == 0xFF
  {
    var s := h + b;
    assert forall i :: 8 <= i < |s| ==> s[i] == b[i - 8];
    assert s[8..8 + |r|] == b[..|r|];
  }

  lemma HeaderNumbers(size: nat, crc: nat)
    requires size <= 0xFFFF && crc <= 0xFFFF
    ensures var h := HeaderBytes(size, crc);
            && h[0] == 0xFE && h[1] == 0xFE && h[6] == 0xFF && h[7] == 0xFF
            && Number(h[2], h[3]) == size && Number(h[4], h[5]) == crc
  {
    hide Low, High;
    LowHigh(0xFEFE);
    LowHigh(0xFFFF);
    LowHigh(size);
    LowHigh(crc);
  }

  lemma BodyParts(block: BlockSize, r: Record)
    ensures |r| <= |Body(block, r)| && Body(block, r)[..|r|] == r
    ensures forall i :: |r| <= i < |Body(block, r)| ==> Body(block, r)[i] == 0xFF
  {
    hide Padding;
  }
}
