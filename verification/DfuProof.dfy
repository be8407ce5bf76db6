/** What every run of the firmware-update steps keeps: the bytes accepted are in flash or in the
    buffer, every write lands on bytes erased in this transfer, and there is one token. */
module DfuProof {
  import opened Bytes
  import opened Division
  import opened SectorMath
  import opened Errors
  import opened DfuSteps

  // ---- flash discipline of a transfer

  ghost predicate Covers(op: FlashOp, b: nat) { op.off <= b < op.off + op.len }

  /** Byte `b` was erased in this transfer and not written since. */
  ghost predicate Clean(log: seq<FlashOp>, b: nat) {
    log != [] && (
      var op := log[|log| - 1];
      if Covers(op, b) then op.Erase? else Clean(log[..|log| - 1], b))
  }

  /** Every operation stays inside the slot, and every byte written was clean before. */
  ghost predicate Disciplined(cfg: Config, log: seq<FlashOp>) {
    log == [] || (
      var before, op := log[..|log| - 1], log[|log| - 1];
      && Disciplined(cfg, before)
      && op.off + op.len <= cfg.slot
      && (op.Write? ==> forall b: nat :: Covers(op, b) ==> Clean(before, b)))
  }

  lemma LogOneMore(cfg: Config, log: seq<FlashOp>, op: FlashOp)
    ensures Disciplined(cfg, log + [op])
       <==> Disciplined(cfg, log) && op.off + op.len <= cfg.slot
            && (op.Write? ==> forall b: nat :: Covers(op, b) ==> Clean(log, b))
    ensures forall b: nat :: Clean(log + [op], b) <==> if Covers(op, b) then op.Erase? else Clean(log, b)
  {
    assert (log + [op])[..|log|] == log;
  }

  // ---- the state of a transfer

  /** What was accepted is in flash up to the offset and in the buffer behind it, and the rest of
      the current sector is clean. */
  ghost predicate Content(cfg: Config, d: Dfu) {
    var all := Concat(d.blocks);
    && cfg.Valid() && Shape(cfg, d) && d.phase == Receiving
    && d.flashOffset % WRITE_SIZE == 0
    && d.flashOffset + d.wrIdx == |all|
    && d.flashOffset <= cfg.slot && d.slot[..d.flashOffset] == all[..d.flashOffset]
    && d.bytes[..d.wrIdx] == all[d.flashOffset..]
    && SectorClean(cfg, d)
  }

  /** From the offset up to `end` everything is erased and clean. */
  ghost predicate CleanTo(cfg: Config, d: Dfu, end: nat) {
    && Disciplined(cfg, d.log)
    && end <= |d.slot| == cfg.slot
    && IsErased(d.slot, d.flashOffset, end)
    && forall b: nat :: d.flashOffset <= b < end ==> Clean(d.log, b)
  }

  ghost predicate SectorClean(cfg: Config, d: Dfu) {
    0 < cfg.sector && CleanTo(cfg, d, SectorEnd(d.flashOffset, cfg.sector))
  }

  /** The first `k` blocks of an image that fits the slot are in. */
  ghost predicate Announced(cfg: Config, d: Dfu, k: nat) {
    && d.blockNumber < d.blockCount < U32 && Capacity(cfg, d.blockCount) <= cfg.slot
    && |d.blocks| == k && |Concat(d.blocks)| <= Capacity(cfg, k)
  }

  /** The image is too large, and nothing has been written yet. */
  ghost predicate Oversized(cfg: Config, d: Dfu) {
    d.blockNumber < d.blockCount < U32 && TooLarge(cfg, d) && d.log == []
  }

  /** No transfer, but perhaps one block: of a transfer of no blocks, or checked before the state
      was cleared. */
  ghost predicate Orphan(cfg: Config, d: Dfu) {
    && d.blockCount == 0 && d.blockNumber < U32 && |Concat(d.blocks)| <= cfg.blockMax
    && (d.flashOffset == 0 || d.wrIdx == 0)
  }

  /** No transfer since the state was cleared. */
  ghost predicate Pristine(cfg: Config, d: Dfu) {
    Content(cfg, d) && d.blockCount == 0 && d.blockNumber < U32 && d.blocks == [] && d.log == []
  }

  /** The whole image is in flash, padded with 0xFF to a double word. Blocks beyond the last may
      have been taken since. */
  ghost predicate Finished(cfg: Config, d: Dfu) {
    && cfg.Valid() && Shape(cfg, d) && d.phase == FinishedVerify
    && d.blockCount <= |d.blocks| && d.blockCount <= d.blockNumber + 1 <= U32
    && Disciplined(cfg, d.log)
    && Stored(cfg, d.slot, Concat(d.blocks[..d.blockCount]))
  }

  ghost predicate Stored(cfg: Config, slot: seq<byte>, all: seq<byte>) {
    var end := |all| + PadTo8(|all|);
    end <= |slot| == cfg.slot && slot[..end] == all + Blank(PadTo8(|all|))
  }

  /** The buffer can take another block. */
  ghost predicate Ready(cfg: Config, d: Dfu) {
    || Finished(cfg, d)
    || (Content(cfg, d) && d.wrIdx < WRITE_SIZE
        && (|| Orphan(cfg, d)
            || (d.blockNumber + 1 < d.blockCount && (Announced(cfg, d, d.blockNumber + 1) || Oversized(cfg, d)))))
  }

  /** The buffer is due to be written, or a finished image to be checked. */
  ghost predicate Loaded(cfg: Config, d: Dfu) {
    || Finished(cfg, d)
    || (&& Content(cfg, d) && d.blocks != []
        && d.wrIdx < WRITE_SIZE + cfg.blockMax && (d.wrIdx >= WRITE_SIZE || IsLast(d))
        && (|| (Announced(cfg, d, d.blockNumber + 1) && |Concat(d.blocks)| <= Capacity(cfg, d.blockNumber) + d.wrIdx)
            || Oversized(cfg, d)
            || (Orphan(cfg, d) && d.flashOffset == 0)))
  }

  /** The 32-bit size check is right about an image of `count` blocks. */
  predicate CheckedRight(cfg: Config, count: nat) {
    Capacity(cfg, count) <= cfg.slot || Capacity(cfg, count) % U32 > cfg.slot
  }

  /** A block that passed the parameter check, before or after the state was cleared. */
  ghost predicate Expected(cfg: Config, d: Dfu, b: Block) {
    && |b.data| <= cfg.blockMax
    && (b.current == 0 ==> CheckedRight(cfg, b.count))
    && (b.current != 0 ==> Pristine(cfg, d) || (d.blockCount != 0 && b.current == d.blockNumber + 1))
  }

  // ---- loading

  /** A state that takes a block into a transfer. */
  ghost predicate Open(cfg: Config, d: Dfu) {
    && Content(cfg, d) && d.wrIdx < WRITE_SIZE
    && (|| Announced(cfg, d, d.blockNumber)
        || Oversized(cfg, d)
        || (d.blockCount == 0 && d.blockNumber < U32 && d.blocks == []))
  }

  lemma StartOpens(cfg: Config, d: Dfu, b: Block)
    requires Ready(cfg, d) && Expected(cfg, d, b) && b.current == 0
    ensures Open(cfg, Started(d, 0, b.count)) && Started(d, 0, b.count).blocks == []
  {
    var d1 := Started(d, 0, b.count);
    ReadyShape(cfg, d);
    StartClean(cfg, d1);
    hide SectorEnd, Capacity, Finished, Announced;
    CapacityGrows(cfg, 0, b.count);
    assert Content(cfg, d1);
    OpensByCount(cfg, d1);
  }

  /** The announced count decides which kind of transfer it is. */
  lemma OpensByCount(cfg: Config, d: Dfu)
    requires Content(cfg, d) && d.blocks == [] && d.log == [] && d.blockNumber == 0 && d.blockCount < U32
    requires CheckedRight(cfg, d.blockCount)
    ensures Announced(cfg, d, 0) || Oversized(cfg, d) || d.blockCount == 0
  {
    hide SectorClean;
    if d.blockCount != 0 && Capacity(cfg, d.blockCount) <= cfg.slot {
      CapacityGrows(cfg, 0, 0);
    }
  }

  lemma NextOpens(cfg: Config, d: Dfu, b: Block)
    requires Ready(cfg, d) && Expected(cfg, d, b) && b.current != 0 && d.phase == Receiving
    ensures Open(cfg, Started(d, b.current, b.count)) && Started(d, b.current, b.count).blocks == d.blocks
  {
    hide SectorEnd, Capacity, Concat;
    var d1 := Started(d, b.current, b.count);
    ContentFrame(cfg, d, d1);
    hide Content;
    assert d.wrIdx < WRITE_SIZE;
  }

  lemma ContentFrame(cfg: Config, d: Dfu, d': Dfu)
    requires Content(cfg, d) && d' == d.(blockNumber := d'.blockNumber)
    ensures Content(cfg, d')
  {
  }

  lemma StartClean(cfg: Config, d: Dfu)
    requires cfg.Valid() && Shape(cfg, d) && d.log == [] && d.flashOffset == 0
    ensures SectorClean(cfg, d)
  {
    Unique(0, cfg.sector, 0, 0);
  }

  lemma CapacityGrows(cfg: Config, k: nat, count: nat)
    ensures Capacity(cfg, 0) == 0
    ensures Capacity(cfg, k + 1) == Capacity(cfg, k) + cfg.blockMax
    ensures k < count ==> Capacity(cfg, k) + cfg.blockMax <= Capacity(cfg, count)
  {
    if k < count {
      MulStep(k, count, cfg.blockMax);
    }
  }

  /** Buffering a block appends it to what is accepted. */
  lemma BufferedContent(cfg: Config, d: Dfu, data: seq<byte>)
    requires Content(cfg, d) && d.wrIdx + |data| <= |d.bytes|
    ensures Content(cfg, Buffered(d, data))
    ensures Concat(Buffered(d, data).blocks) == Concat(d.blocks) + data
  {
    hide SectorClean, Concat, Boundary;
    var d2 := Buffered(d, data);
    ConcatOneMore(d.blocks, data);
    assert d2.bytes[..d2.wrIdx] == d.bytes[..d.wrIdx] + data;
    assert Concat(d2.blocks)[d.flashOffset..] == Concat(d.blocks)[d.flashOffset..] + data;
    CleanFrame(cfg, d, d2);
  }

  /** A block taken into a transfer never finds the buffer full, and makes it due or leaves room. */
  lemma OpenTakes(cfg: Config, d: Dfu, data: seq<byte>)
    requires Open(cfg, d) && |data| <= cfg.blockMax
    ensures d.wrIdx + |data| <= |d.bytes|
    ensures var d2 := Buffered(d, data);
            if d2.wrIdx >= WRITE_SIZE || IsLast(d2) then Loaded(cfg, d2) else Ready(cfg, d2)
  {
    assert d.wrIdx + |data| <= |d.bytes|;
    BufferedContent(cfg, d, data);
    var d2 := Buffered(d, data);
    CapacityGrows(cfg, d.blockNumber, 0);
    hide Content, Concat, Capacity, Finished;
    assert d2.blocks != [];
    NothingBefore(cfg, d);
  }

  lemma NothingBefore(cfg: Config, d: Dfu)
    ensures Content(cfg, d) && d.blocks == [] ==> d.flashOffset == 0 && d.wrIdx == 0 && Concat(d.blocks) == []
    ensures Content(cfg, d) ==> d.phase == Receiving
  {
    hide SectorClean;
  }

  /** A block behind the end of a finished transfer changes buffer and counters only. */
  lemma BeyondKeeps(cfg: Config, d: Dfu, b: Block)
    requires Finished(cfg, d) && Expected(cfg, d, b) && b.current != 0
    ensures var (d', ret) := Load(cfg, d, b.current, b.count, b.data);
            && Finished(cfg, d') && d'.slot == d.slot && d'.log == d.log
  {
    hide Disciplined, Stored, Concat, Capacity, Content;
    assert !Pristine(cfg, d) by {
      NothingBefore(cfg, d);
    }
    var d' := Load(cfg, d, b.current, b.count, b.data).0;
    assert d'.blocks[..d'.blockCount] == d.blocks[..d.blockCount];
  }

  /** Loading keeps the state good. Unless the transfer is finished, the block is appended. */
  lemma LoadKeeps(cfg: Config, d: Dfu, b: Block)
    requires Ready(cfg, d) && Expected(cfg, d, b)
    ensures Shape(cfg, d)
    ensures var (d', ret) := Load(cfg, d, b.current, b.count, b.data);
            && (if ret == InProgress then Loaded(cfg, d') else Ready(cfg, d'))
            && (if b.current == 0 || d.phase == Receiving
                then ret != NoMem && d'.phase == Receiving
                     && d'.blocks == (if b.current == 0 then [] else d.blocks) + [b.data]
                else d'.phase == FinishedVerify && d'.slot == d.slot && d'.log == d.log)
  {
    ReadyShape(cfg, d);
    if b.current != 0 && d.phase == FinishedVerify {
      ReadyPhase(cfg, d);
      BeyondKeeps(cfg, d, b);
    } else {
      if b.current == 0 {
        StartOpens(cfg, d, b);
      } else {
        NextOpens(cfg, d, b);
      }
      var d1 := Started(d, b.current, b.count);
      OpenTakes(cfg, d1, b.data);
      OpenReceives(cfg, d1);
    }
    hide Ready, Loaded, Finished, Open, Expected, Capacity, Overlay;
  }

  lemma OpenReceives(cfg: Config, d: Dfu)
    requires Open(cfg, d)
    ensures d.phase == Receiving
  {
  }

  lemma ReadyPhase(cfg: Config, d: Dfu)
    requires Ready(cfg, d) || Loaded(cfg, d)
    ensures d.phase == FinishedVerify <==> Finished(cfg, d)
    ensures d.phase == Receiving <==> Content(cfg, d)
  {
    hide Concat, SectorClean;
  }

  lemma ReadyShape(cfg: Config, d: Dfu)
    requires Ready(cfg, d)
    ensures cfg.Valid() && Shape(cfg, d)
  {
    hide Concat;
  }

  lemma CleanFrame(cfg: Config, d: Dfu, d': Dfu)
    requires SectorClean(cfg, d) && d'.slot == d.slot && d'.log == d.log && d'.flashOffset == d.flashOffset
    ensures SectorClean(cfg, d')
  {
  }

  // ---- writing

  /** Erasing the next sector extends the clean bytes by a sector. */
  lemma EraseExtends(cfg: Config, d: Dfu)
    requires Shape(cfg, d) && SectorClean(cfg, d) && SectorEnd(d.flashOffset, cfg.sector) + cfg.sector <= cfg.slot
    requires d.flashOffset <= SectorEnd(d.flashOffset, cfg.sector)
    ensures var (d', ok) := Erased(cfg, d);
            && ok && d' == d.(slot := d'.slot, log := d'.log) && |d'.slot| == |d.slot|
            && CleanTo(cfg, d', SectorEnd(d.flashOffset, cfg.sector) + cfg.sector)
            && d'.slot[..d.flashOffset] == d.slot[..d.flashOffset]
  {
    hide SectorEnd;
    var off := SectorEnd(d.flashOffset, cfg.sector);
    LogOneMore(cfg, d.log, Erase(off, cfg.sector));
  }

  /** A write inside the clean bytes is accepted and uses up what it covers. */
  lemma WriteUses(cfg: Config, d: Dfu, n: nat, end: nat)
    requires Shape(cfg, d) && CleanTo(cfg, d, end) && n <= |d.bytes| && d.flashOffset + n <= end
    ensures var (d', ok) := Written(cfg, d, n);
            && ok && d' == d.(slot := d'.slot, log := d'.log) && |d'.slot| == |d.slot|
            && CleanTo(cfg, Advanced(cfg, d', n), end)
            && d'.slot[..d.flashOffset + n] == d.slot[..d.flashOffset] + d.bytes[..n]
  {
    hide Clean, Disciplined, Covers;
    var slot' := Overlay(d.slot, d.flashOffset, d.bytes[..n]);
    CleanUsed(cfg, d.log, d.flashOffset, n, end);
    assert slot'[..d.flashOffset + n] == d.slot[..d.flashOffset] + d.bytes[..n];
  }

  lemma CleanUsed(cfg: Config, log: seq<FlashOp>, off: nat, n: nat, end: nat)
    requires Disciplined(cfg, log) && off + n <= end <= cfg.slot
    requires forall b: nat :: off <= b < end ==> Clean(log, b)
    ensures Disciplined(cfg, log + [Write(off, n)])
    ensures forall b: nat :: off + n <= b < end ==> Clean(log + [Write(off, n)], b)
  {
    LogOneMore(cfg, log, Write(off, n));
  }

  /** Where the clean bytes end once the code has decided about erasing. */
  function CleanEnd(cfg: Config, d: Dfu, n: nat): nat
    requires 0 < cfg.sector
  {
    SectorEnd(d.flashOffset, cfg.sector) + if NeedsErase(cfg, d, n) then cfg.sector else 0
  }

  /** A write that is due: the size check passes it, it starts inside the slot, fits a sector, and
      if it runs past the sector end then so do the bytes accepted. */
  ghost predicate Due(cfg: Config, d: Dfu) {
    && Content(cfg, d) && !TooLarge(cfg, d)
    && var n := BytesToWrite(cfg, d);
    && d.flashOffset < cfg.slot && n <= cfg.sector
    && d.flashOffset + d.wrIdx <= cfg.slot
    && (!IsLast(d) ==> n == WRITE_SIZE <= d.wrIdx)
    && (n > WRITE_SIZE ==> n < d.wrIdx + 8 && (d.flashOffset + n) % 8 == 0)
  }

  lemma AnnouncedIsDue(cfg: Config, d: Dfu)
    requires Loaded(cfg, d) && Content(cfg, d) && Announced(cfg, d, d.blockNumber + 1)
    ensures Due(cfg, d)
  {
    NotTooLarge(cfg, d);
    FinishedNotContent(cfg, d);
    CapacityGrows(cfg, d.blockNumber, d.blockCount);
    LoadedOfCount(cfg, d);
    hide Capacity, SectorClean, Concat, Boundary, PadTo8, Finished, Loaded, TooLarge;
    DoubleWords(d.flashOffset, d.wrIdx + PadTo8(d.wrIdx));
  }

  /** Due, and with no more bytes than the blocks before and this one can hold. */
  lemma LoadedOfCount(cfg: Config, d: Dfu)
    requires Loaded(cfg, d) && Content(cfg, d)
    ensures cfg.Valid() && d.wrIdx < WRITE_SIZE + cfg.blockMax && (d.wrIdx >= WRITE_SIZE || IsLast(d))
    ensures Announced(cfg, d, d.blockNumber + 1) ==> |Concat(d.blocks)| <= Capacity(cfg, d.blockNumber) + d.wrIdx
  {
    FinishedNotContent(cfg, d);
    if Capacity(cfg, d.blockCount) <= cfg.slot {
      NotTooLarge(cfg, d);
    }
    hide Capacity, Concat, SectorClean, Finished, TooLarge;
  }

  lemma OrphanIsDue(cfg: Config, d: Dfu)
    requires Loaded(cfg, d) && Content(cfg, d) && Orphan(cfg, d) && d.flashOffset == 0
    ensures Due(cfg, d)
  {
    NotTooLarge(cfg, d);
    FinishedNotContent(cfg, d);
    SlotHoldsSector(cfg);
    OrphanBytes(cfg, d);
    LoadedOfCount(cfg, d);
    PaddedWrite(d.wrIdx);
    hide Capacity, Boundary, SectorClean, Concat, PadTo8, Finished, Loaded;
  }

  lemma PaddedWrite(n: nat)
    requires n <= WRITE_SIZE
    ensures n + PadTo8(n) <= WRITE_SIZE
  {
  }

  lemma SlotHoldsSector(cfg: Config)
    requires cfg.Valid()
    ensures 0 < cfg.sector <= cfg.slot && Capacity(cfg, 0) == 0
  {
    CapacityGrows(cfg, 0, 0);
    BoundaryRoom(0, cfg.slot, cfg.sector);
  }

  lemma DoubleWords(off: nat, n: nat)
    requires off % WRITE_SIZE == 0 && n % 8 == 0
    ensures (off + n) % 8 == 0
  {
    assert off == 8 * (8 * (off / WRITE_SIZE)) && n == 8 * (n / 8);
  }

  /** The erase, if any, stays in the slot, and the write stays in the clean bytes. */
  lemma RoomToWrite(cfg: Config, d: Dfu, n: nat)
    requires cfg.Valid() && d.flashOffset % WRITE_SIZE == 0
    requires d.flashOffset < cfg.slot && n <= cfg.sector && d.flashOffset + d.wrIdx <= cfg.slot
    requires n > WRITE_SIZE ==> n < d.wrIdx + 8 && (d.flashOffset + n) % 8 == 0
    ensures d.flashOffset <= SectorEnd(d.flashOffset, cfg.sector)
    ensures d.flashOffset + n <= CleanEnd(cfg, d, n)
    ensures NeedsErase(cfg, d, n) ==> CleanEnd(cfg, d, n) <= cfg.slot
  {
    var end := SectorEnd(d.flashOffset, cfg.sector);
    PosRoom(d.flashOffset, cfg.sector);
    EndIsBoundary(d.flashOffset, cfg.sector);
    EndIsAligned(d.flashOffset, cfg.sector);
    hide Pos;
    if NeedsErase(cfg, d, n) {
      if end == d.flashOffset {
        assert end < cfg.slot;
      } else {
        PastTheEnd(d.flashOffset + n, end, d.flashOffset + d.wrIdx);
      }
      BoundaryRoom(end, cfg.slot, cfg.sector);
    }
  }

  lemma PastTheEnd(stop: nat, end: nat, bytes: nat)
    requires stop % 8 == 0 && end % WRITE_SIZE == 0 && end < stop < bytes + 8
    ensures end < bytes
  {
    WordsApart(end, stop);
  }

  lemma WordsApart(a: nat, b: nat)
    requires a % WRITE_SIZE == 0 && b % 8 == 0 && a < b
    ensures a + 8 <= b
  {
    var p, q := a / WRITE_SIZE, b / 8;
    assert a == 8 * (8 * p);
    assert b == 8 * q;
    assert 8 * p < q;
  }

  /** Erase and write of a due buffer: nothing fails, the bytes are appended to the slot. */
  lemma EraseAndWrite(cfg: Config, d: Dfu)
    requires Due(cfg, d)
    ensures Shape(cfg, d) && 0 < cfg.sector
    ensures var n, (d', ret) := BytesToWrite(cfg, d), Consume(cfg, d);
            && ret == Success
            && d' == Advanced(cfg, Filled(cfg, d).(slot := d'.slot, log := d'.log), n)
            && |d'.slot| == cfg.slot && d.flashOffset + n <= cfg.slot
            && d'.slot[..d.flashOffset + n] == d.slot[..d.flashOffset] + Filled(cfg, d).bytes[..n]
            && CleanTo(cfg, d', CleanEnd(cfg, d, n))
  {
    hide SectorEnd, CleanTo, Concat, Boundary, Pos, Capacity;
    var n := BytesToWrite(cfg, d);
    RoomToWrite(cfg, d, n);
    var d1 := Filled(cfg, d);
    assert CleanTo(cfg, d, SectorEnd(d.flashOffset, cfg.sector));
    CleanToFrame(cfg, d, d1, SectorEnd(d.flashOffset, cfg.sector));
    if NeedsErase(cfg, d, n) {
      EraseExtends(cfg, d1);
      WriteUses(cfg, Erased(cfg, d1).0, n, CleanEnd(cfg, d, n));
    } else {
      WriteUses(cfg, d1, n, CleanEnd(cfg, d, n));
    }
  }

  lemma CleanToFrame(cfg: Config, d: Dfu, d': Dfu, end: nat)
    requires CleanTo(cfg, d, end) && d'.slot == d.slot && d'.log == d.log && d'.flashOffset == d.flashOffset
    ensures CleanTo(cfg, d', end)
  {
  }

  lemma NotTooLarge(cfg: Config, d: Dfu)
    requires cfg.Valid() && Capacity(cfg, d.blockCount) <= cfg.slot
    ensures !TooLarge(cfg, d)
  {
  }

  /** Writing all but the last time: 64 bytes move from the buffer to the slot. */
  lemma ConsumeMiddle(cfg: Config, d: Dfu)
    requires Due(cfg, d) && !IsLast(d)
    ensures Shape(cfg, d) && 0 < cfg.sector
    ensures var (d', ret) := Consume(cfg, d);
            && ret == Success && Content(cfg, d')
            && d'.wrIdx == d.wrIdx - WRITE_SIZE && d'.flashOffset == d.flashOffset + WRITE_SIZE
            && d' == d.(bytes := d'.bytes, wrIdx := d'.wrIdx, flashOffset := d'.flashOffset,
                        slot := d'.slot, log := d'.log)
  {
    hide SectorClean, Concat, Consume, Boundary, Pos, CleanTo, NeedsErase, Capacity;
    EraseAndWrite(cfg, d);
    MiddleIsClean(cfg, d);
    var all, d' := Concat(d.blocks), Consume(cfg, d).0;
    MiddleBytes(d.bytes, d.wrIdx, all, d.flashOffset, d'.bytes);
    assert d'.slot[..d'.flashOffset] == all[..d'.flashOffset];
    assert (d.flashOffset + WRITE_SIZE) % WRITE_SIZE == 0;
  }

  lemma MiddleIsClean(cfg: Config, d: Dfu)
    requires Due(cfg, d) && !IsLast(d)
    ensures Shape(cfg, d) && 0 < cfg.sector && SectorClean(cfg, Consume(cfg, d).0)
  {
    hide CleanTo, Concat, Consume, Pos, Capacity;
    EraseAndWrite(cfg, d);
    NextEnd(d.flashOffset, cfg.sector);
    PosSmall(cfg, d);
  }

  lemma PosSmall(cfg: Config, d: Dfu)
    requires cfg.Valid() && d.flashOffset % WRITE_SIZE == 0
    ensures NeedsErase(cfg, d, WRITE_SIZE) <==> Boundary(d.flashOffset, cfg.sector)
  {
  }

  /** The buffer before and after 64 bytes have moved on. */
  lemma MiddleBytes(bytes: seq<byte>, wrIdx: nat, all: seq<byte>, off: nat, after: seq<byte>)
    requires WRITE_SIZE <= wrIdx <= |bytes| && off + wrIdx == |all| && bytes[..wrIdx] == all[off..]
    requires after == Overlay(bytes, 0, bytes[WRITE_SIZE..wrIdx])
    ensures all[..off] + bytes[..WRITE_SIZE] == all[..off + WRITE_SIZE]
    ensures after[..wrIdx - WRITE_SIZE] == all[off + WRITE_SIZE..]
  {
    assert forall i :: 0 <= i < wrIdx ==> bytes[i] == bytes[..wrIdx][i] == all[off + i];
  }

  /** The last write: all that is left goes out, padded. */
  lemma ConsumeLast(cfg: Config, d: Dfu)
    requires Due(cfg, d) && IsLast(d)
    ensures Shape(cfg, d) && 0 < cfg.sector
    ensures var (d', ret) := Consume(cfg, d);
            && ret == Success && d'.phase == FinishedVerify && Shape(cfg, d')
            && d'.blocks == d.blocks && d'.blockNumber == d.blockNumber && d'.blockCount == d.blockCount
            && Stored(cfg, d'.slot, Concat(d.blocks)) && Disciplined(cfg, d'.log)
  {
    hide SectorEnd, CleanTo, Concat, Consume, Boundary, Pos, PadTo8, Capacity;
    EraseAndWrite(cfg, d);
    var all, d' := Concat(d.blocks), Consume(cfg, d).0;
    var n := BytesToWrite(cfg, d);
    SamePadding(d.flashOffset, d.wrIdx);
    LastBytes(d.bytes, d.wrIdx, all, d.flashOffset, Filled(cfg, d).bytes, PadTo8(d.wrIdx));
    CleanIsDisciplined(cfg, d', CleanEnd(cfg, d, n));
  }

  /** A turn of the thread on an image that fits: more room in the buffer, or the image is done. */
  lemma AnnouncedTurn(cfg: Config, d: Dfu)
    requires Loaded(cfg, d) && Content(cfg, d) && Announced(cfg, d, d.blockNumber + 1)
    ensures Shape(cfg, d) && 0 < cfg.sector
    ensures var (d', ret) := Consume(cfg, d);
            && ret == Success && Ready(cfg, d')
            && d'.blocks == d.blocks && d'.blockNumber == d.blockNumber && d'.blockCount == d.blockCount
            && (d'.phase == FinishedVerify <==> IsLast(d))
  {
    hide Consume, Capacity, Concat, Stored, Disciplined, SectorClean, Boundary, BytesToWrite, TooLarge;
    AnnouncedIsDue(cfg, d);
    if IsLast(d) {
      ConsumeLast(cfg, d);
      assert d.blocks[..d.blockCount] == d.blocks;
    } else {
      ConsumeMiddle(cfg, d);
      LoadedWrIdx(cfg, d);
    }
  }

  lemma LoadedWrIdx(cfg: Config, d: Dfu)
    requires Loaded(cfg, d) && Content(cfg, d)
    ensures cfg.Valid() && d.wrIdx < WRITE_SIZE + cfg.blockMax <= 2 * WRITE_SIZE
  {
    hide Concat, SectorClean, Capacity;
  }

  /** A turn on an image that is too large: everything is cleared, the flash is not touched. */
  lemma OversizedTurn(cfg: Config, d: Dfu)
    requires Content(cfg, d) && Oversized(cfg, d)
    ensures Shape(cfg, d) && 0 < cfg.sector
    ensures Consume(cfg, d) == (Cleared(cfg, d.slot), InvalidParam)
    ensures Pristine(cfg, Consume(cfg, d).0) && Ready(cfg, Consume(cfg, d).0)
  {
    ClearedIsPristine(cfg, d.slot);
    hide Capacity, Concat, SectorClean, Finished, Orphan;
  }

  lemma ClearedIsPristine(cfg: Config, slot: seq<byte>)
    requires cfg.Valid() && |slot| == cfg.slot
    ensures Pristine(cfg, Cleared(cfg, slot)) && Orphan(cfg, Cleared(cfg, slot)) && Ready(cfg, Cleared(cfg, slot))
  {
    StartClean(cfg, Cleared(cfg, slot));
    hide Capacity, SectorEnd;
  }

  /** A turn on a block without a transfer: it is written at the start of the slot. */
  lemma OrphanTurn(cfg: Config, d: Dfu)
    requires Loaded(cfg, d) && Content(cfg, d) && Orphan(cfg, d) && d.flashOffset == 0
    ensures Shape(cfg, d) && 0 < cfg.sector
    ensures var (d', ret) := Consume(cfg, d);
            && ret == Success && Ready(cfg, d')
            && d'.blockNumber == d.blockNumber && d'.blockCount == 0
  {
    OrphanIsDue(cfg, d);
    if IsLast(d) {
      ConsumeLast(cfg, d);
      NothingStored(cfg, Consume(cfg, d).0);
    } else {
      ConsumeMiddle(cfg, d);
      OrphanBytes(cfg, d);
    }
    hide Content, Consume, Capacity, Concat, Stored, Disciplined, Due;
  }

  lemma OrphanBytes(cfg: Config, d: Dfu)
    requires Content(cfg, d) && Orphan(cfg, d) && d.flashOffset == 0
    ensures d.wrIdx == |Concat(d.blocks)| <= WRITE_SIZE
  {
    hide Concat, SectorClean;
  }

  lemma NothingStored(cfg: Config, d: Dfu)
    requires d.blockCount == 0 && Shape(cfg, d)
    ensures Stored(cfg, d.slot, Concat(d.blocks[..d.blockCount]))
  {
  }

  lemma CleanIsDisciplined(cfg: Config, d: Dfu, end: nat)
    requires CleanTo(cfg, d, end)
    ensures Disciplined(cfg, d.log)
  {
  }

  lemma SamePadding(off: nat, n: nat)
    requires off % WRITE_SIZE == 0
    ensures PadTo8(off + n) == PadTo8(n)
  {
    assert off == 8 * (8 * (off / WRITE_SIZE));
  }

  lemma LastBytes(bytes: seq<byte>, wrIdx: nat, all: seq<byte>, off: nat, filled: seq<byte>, pad: nat)
    requires wrIdx + pad <= |bytes| && off + wrIdx == |all| && bytes[..wrIdx] == all[off..]
    requires filled == Overlay(bytes, wrIdx, Blank(pad))
    ensures all[..off] + filled[..wrIdx + pad] == all + Blank(pad)
  {
    assert forall i :: 0 <= i < wrIdx ==> filled[i] == bytes[..wrIdx][i] == all[off + i];
  }

  // ---- runs

  ghost predicate BlockFits(cfg: Config, d: Dfu, p: Producer) {
    match p
    case Idle => true
    case Checked(b) => Expected(cfg, d, b)
    case Loading(b) => Expected(cfg, d, b)
  }

  /** How many tokens there are: in the semaphores and with the three parties. */
  function Tokens(s: System): nat {
    s.free + s.full
    + (if s.producer.Loading? then 1 else 0)
    + (if s.consuming then 1 else 0)
    + (if s.checker.Requesting? then 1 else 0)
  }

  /** One token is conserved by every step, whatever the sender does. */
  lemma TokenIsKept(cfg: Config, s: System, e: Event)
    requires Shape(cfg, s.d) && 0 < cfg.sector && Tokens(s) == 1
    ensures Tokens(Next(cfg, s, e)) == 1
  {
    hide Consume, Load, Rejected;
  }

  /** In every run of any senders there is exactly one token. */
  lemma {:induction false} OneToken(cfg: Config, slot: seq<byte>, events: seq<Event>)
    requires |slot| == cfg.slot && 0 < cfg.sector
    ensures Tokens(Run(cfg, Initial(cfg, slot), events)) == 1
    decreases |events|
  {
    hide Next, Tokens;
    var s0 := Initial(cfg, slot);
    if events == [] {
      assert Tokens(s0) == 1 by { OneAtStart(cfg, slot); }
    } else {
      OneToken(cfg, slot, events[..|events| - 1]);
      TokenIsKept(cfg, Run(cfg, s0, events[..|events| - 1]), events[|events| - 1]);
    }
  }

  lemma OneAtStart(cfg: Config, slot: seq<byte>)
    ensures Tokens(Initial(cfg, slot)) == 1
  {
  }

  /** The shared state changes only in a step of the party that holds the token, and then nobody
      else has it or can take it. */
  lemma OnlyTheOwnerWrites(cfg: Config, s: System, e: Event)
    requires Shape(cfg, s.d) && 0 < cfg.sector && Tokens(s) == 1
    ensures Next(cfg, s, e).d != s.d ==>
              && s.free == 0 && s.full == 0
              && (e == LoadBlock || e == ProcessBlock || e == QueueCheck)
              && s.producer.Loading? == (e == LoadBlock)
              && s.consuming == (e == ProcessBlock)
              && s.checker.Requesting? == (e == QueueCheck)
  {
    hide Consume, Load, Rejected;
  }

  /** What is checked is what was asked for: from the request on, whatever the sender does, the thread finds the
      finished image and the CRC of the request. */
  lemma {:induction false} RequestIsChecked(cfg: Config, s: System, events: seq<Event>)
    requires Shape(cfg, s.d) && 0 < cfg.sector && Tokens(s) == 1 && ProcessBlock !in events
    ensures s.checker.Requesting? && s.d.phase == FinishedVerify ==>
              var t := Run(cfg, Next(cfg, s, QueueCheck), events);
              Tokens(t) == 1 && (t.full == 1 || t.consuming) && t.d == s.d.(expectedCrc := s.checker.crc)
    decreases |events|
  {
    hide Consume, Load, Rejected;
    if events != [] {
      var before, e := events[..|events| - 1], events[|events| - 1];
      RequestIsChecked(cfg, s, before);
      var t := Run(cfg, Next(cfg, s, QueueCheck), before);
      assert e in events;
      if s.checker.Requesting? && s.d.phase == FinishedVerify {
        TokenIsKept(cfg, t, e);
        OnlyTheOwnerWrites(cfg, t, e);
      }
    }
  }

  /** A first block forgets everything but the bytes in buffer and slot. */
  lemma StartForgets(cfg: Config, d: Dfu, count: nat)
    ensures Started(d, 0, count) == Cleared(cfg, d.slot).(bytes := d.bytes, blockCount := count)
    ensures Cleared(cfg, d.slot) == Dfu(Cleared(cfg, d.slot).bytes, 0, 0, 0, 0, 0, Receiving, d.slot, [], [])
  {
  }

  /** One token; whoever holds it finds the state as it needs it. */
  ghost predicate Safe(cfg: Config, s: System) {
    && Tokens(s) == 1
    && (if s.full == 1 || s.consuming then Loaded(cfg, s.d) else Ready(cfg, s.d))
    && BlockFits(cfg, s.d, s.producer)
  }

  /** All that is asked of the sender: the size it announces with the first block does not overflow
      the size check to a size that fits. Everything else is free. */
  ghost predicate Fair(cfg: Config, s: System, e: Event) {
    e.Submit? && s.producer == Idle && e.block.current == 0 ==> CheckedRight(cfg, e.block.count)
  }

  lemma SafeShape(cfg: Config, s: System)
    requires Safe(cfg, s)
    ensures cfg.Valid() && Shape(cfg, s.d) && 0 < cfg.sector
  {
    hide Concat;
  }

  lemma CheckedIsExpected(cfg: Config, d: Dfu, b: Block)
    requires Ready(cfg, d) || Loaded(cfg, d)
    requires !Rejected(cfg, d, b.current, b.count, |b.data|)
    requires b.current == 0 ==> CheckedRight(cfg, b.count)
    ensures Expected(cfg, d, b)
  {
    hide Content, Concat, Capacity, Stored, Disciplined;
    assert d.blockNumber < U32;
    assert d.blockNumber + 1 < U32 ==> (d.blockNumber + 1) % U32 == d.blockNumber + 1;
    assert d.blockNumber + 1 == U32 ==> (d.blockNumber + 1) % U32 == 0;
  }

  /** Every step keeps the invariant, whichever party moves next. */
  lemma StepIsSafe(cfg: Config, s: System, e: Event)
    requires Safe(cfg, s) && Fair(cfg, s, e)
    ensures cfg.Valid() && Shape(cfg, s.d) && 0 < cfg.sector
    ensures Safe(cfg, Next(cfg, s, e))
  {
    hide Loaded, Ready, Expected, Consume, Load, Finished, Rejected, Capacity;
    SafeShape(cfg, s);
    match e
    case Submit(b) =>
      if s.producer == Idle && !Rejected(cfg, s.d, b.current, b.count, |b.data|) {
        CheckedIsExpected(cfg, s.d, b);
      }
    case LoadBlock =>
      if s.producer.Loading? {
        LoadKeeps(cfg, s.d, s.producer.block);
      }
    case ProcessBlock =>
      if s.consuming {
        ProcessIsSafe(cfg, s);
      }
    case QueueCheck =>
      if s.checker.Requesting? {
        QueueIsSafe(cfg, s);
      }
    case _ =>
  }

  lemma ProcessIsSafe(cfg: Config, s: System)
    requires Safe(cfg, s) && s.consuming
    ensures cfg.Valid() && Shape(cfg, s.d) && 0 < cfg.sector
    ensures Safe(cfg, Next(cfg, s, ProcessBlock))
  {
    SafeShape(cfg, s);
    ProcessKeeps(cfg, s.d);
    if !s.producer.Idle? {
      ProcessFits(cfg, s.d, s.producer.block);
    }
    hide Consume, Loaded, Ready, Capacity, Expected;
  }

  /** What the thread leaves behind. */
  function Processed(cfg: Config, d: Dfu): Dfu
    requires Shape(cfg, d) && 0 < cfg.sector
  {
    if d.phase == Receiving then Consume(cfg, d).0 else d
  }

  /** After a turn of the thread the buffer can take another block. */
  lemma ProcessKeeps(cfg: Config, d: Dfu)
    requires Loaded(cfg, d) && Shape(cfg, d) && 0 < cfg.sector
    ensures Ready(cfg, Processed(cfg, d))
    ensures var d' := Processed(cfg, d);
            Pristine(cfg, d') || (d'.blockNumber == d.blockNumber && d'.blockCount == d.blockCount)
  {
    if d.phase == Receiving {
      ReadyPhase(cfg, d);
      hide Content, Consume, Concat, Capacity, Finished, Ready;
      if Oversized(cfg, d) {
        OversizedTurn(cfg, d);
      } else if Orphan(cfg, d) {
        OrphanTurn(cfg, d);
      } else {
        AnnouncedTurn(cfg, d);
      }
    }
  }

  /** A block that waits for the thread to finish is still expected afterwards. */
  lemma ProcessFits(cfg: Config, d: Dfu, b: Block)
    requires Loaded(cfg, d) && Shape(cfg, d) && 0 < cfg.sector && Expected(cfg, d, b)
    ensures Expected(cfg, Processed(cfg, d), b)
  {
    ProcessKeeps(cfg, d);
    LoadedNotPristine(cfg, d);
    hide Consume, Pristine, Loaded, Ready, Capacity;
  }

  lemma LoadedNotPristine(cfg: Config, d: Dfu)
    requires Loaded(cfg, d)
    ensures !Pristine(cfg, d)
  {
    hide Concat, SectorClean, Capacity;
  }

  lemma QueueIsSafe(cfg: Config, s: System)
    requires Safe(cfg, s) && s.checker.Requesting?
    ensures cfg.Valid() && Shape(cfg, s.d) && 0 < cfg.sector
    ensures Safe(cfg, Next(cfg, s, QueueCheck))
  {
    SafeShape(cfg, s);
    ReadyPhase(cfg, s.d);
    hide Content, Concat, Stored, Disciplined, Capacity, Announced, Oversized, Orphan;
    if s.d.phase == FinishedVerify {
      var d' := s.d.(expectedCrc := s.checker.crc);
      assert Finished(cfg, d');
      assert !s.producer.Idle? && s.producer.block.current != 0 ==> !Pristine(cfg, s.d) by {
        FinishedNotContent(cfg, s.d);
      }
    }
  }

  lemma FinishedNotContent(cfg: Config, d: Dfu)
    ensures Finished(cfg, d) ==> !Content(cfg, d) && !Pristine(cfg, d)
    ensures d.phase == FinishedVerify ==> !Content(cfg, d) && !Pristine(cfg, d)
  {
    hide Stored, Disciplined, Concat, SectorClean;
  }

  ghost predicate FairRun(cfg: Config, s: System, events: seq<Event>)
    requires Shape(cfg, s.d) && 0 < cfg.sector
    decreases |events|
  {
    events == [] || (
      var before := events[..|events| - 1];
      FairRun(cfg, s, before) && Fair(cfg, Run(cfg, s, before), events[|events| - 1]))
  }

  /** Every interleaving keeps the invariant. */
  lemma {:induction false} RunsAreSafe(cfg: Config, s: System, events: seq<Event>)
    requires Safe(cfg, s) && Shape(cfg, s.d) && 0 < cfg.sector && FairRun(cfg, s, events)
    ensures Safe(cfg, Run(cfg, s, events))
    decreases |events|
  {
    hide Safe, Fair, Next;
    if events != [] {
      var before := events[..|events| - 1];
      RunsAreSafe(cfg, s, before);
      StepIsSafe(cfg, Run(cfg, s, before), events[|events| - 1]);
    }
  }

  /** From start-up, for every interleaving and every sender whose announced sizes do not overflow
      the size check, images too large for the slot included: until the last write flash and buffer
      together hold what was accepted; once the transfer is finished the slot holds its blocks,
      padded; and the flash operations are disciplined and inside the slot throughout. */
  lemma EndToEnd(cfg: Config, slot: seq<byte>, events: seq<Event>)
    requires cfg.Valid() && |slot| == cfg.slot && FairRun(cfg, Initial(cfg, slot), events)
    ensures var d := Run(cfg, Initial(cfg, slot), events).d;
            var all := Concat(d.blocks);
            && Disciplined(cfg, d.log)
            && (d.phase == Receiving ==>
                  && d.flashOffset + d.wrIdx == |all|
                  && d.flashOffset <= cfg.slot && d.slot[..d.flashOffset] == all[..d.flashOffset]
                  && d.bytes[..d.wrIdx] == all[d.flashOffset..])
            && (d.phase == FinishedVerify ==>
                  d.blockCount <= |d.blocks| && Stored(cfg, d.slot, Concat(d.blocks[..d.blockCount])))
  {
    hide Capacity, Boundary, Run, FairRun, Clean;
    var s0 := Initial(cfg, slot);
    ClearedIsPristine(cfg, slot);
    RunsAreSafe(cfg, s0, events);
    Progress(cfg, Run(cfg, s0, events).d);
  }

  lemma Progress(cfg: Config, d: Dfu)
    requires Ready(cfg, d) || Loaded(cfg, d)
    ensures var all := Concat(d.blocks);
            && Shape(cfg, d)
            && Disciplined(cfg, d.log)
            && (d.phase == Receiving ==>
                  && d.flashOffset + d.wrIdx == |all|
                  && d.flashOffset <= cfg.slot && d.slot[..d.flashOffset] == all[..d.flashOffset]
                  && d.bytes[..d.wrIdx] == all[d.flashOffset..])
            && (d.phase == FinishedVerify ==>
                  d.blockCount <= |d.blocks| && Stored(cfg, d.slot, Concat(d.blocks[..d.blockCount])))
  {
    hide Capacity, Boundary;
  }

  // ---- the size check

  /** Exactly when the size check is right: its 32-bit multiplication must not wrap round to a size
      that fits. A refusal comes before the first flash operation of the transfer. */
  lemma SizeCheckExactly(cfg: Config, d: Dfu)
    requires cfg.Valid() && Shape(cfg, d) && d.flashOffset == 0
    ensures 0 < cfg.sector
    ensures (TooLarge(cfg, d) <==> Capacity(cfg, d.blockCount) > cfg.slot) <==> CheckedRight(cfg, d.blockCount)
    ensures TooLarge(cfg, d) ==> Consume(cfg, d) == (Cleared(cfg, d.slot), InvalidParam)
  {
    hide Capacity, Boundary;
    var size := Capacity(cfg, d.blockCount);
    assert size < U32 ==> size % U32 == size;
    assert size >= U32 ==> size % U32 < U32 <= size;
  }

  /** Which block ends a transfer: the one before the count; none does if the count is zero, as long as numbers
      stay below 2^32 - 1. */
  lemma LastExactly(d: Dfu)
    ensures IsLast(d) <==> d.blockNumber + 1 == if d.blockCount == 0 then 0x1_0000_0000 else d.blockCount
  {
  }

  /** Only the first write of a transfer can be refused for its size. */
  lemma LaterWritesAreNotSized(cfg: Config, d: Dfu)
    requires Shape(cfg, d) && 0 < cfg.sector && 0 < d.flashOffset
    ensures Consume(cfg, d).1 != InvalidParam
  {
    hide Filled, Erased, Written, Advanced, NeedsErase, BytesToWrite;
  }

  /** Which blocks the parameter check lets through: the first of a transfer, or the one behind the last seen
      while one is known; numbered up to the count it comes with, inclusive; and not too long. */
  lemma RejectedExactly(cfg: Config, d: Dfu, current: nat, count: nat, size: nat)
    requires cfg.Valid()
    ensures Rejected(cfg, d, current, count, size)
       <==> !(&& (current == 0 || (d.blockCount != 0 && current == (d.blockNumber + 1) % 0x1_0000_0000))
              && current <= count
              && size <= cfg.blockMax)
  {
  }

  /** The multiplication wraps: 2^26 blocks of 64 bytes pass the check for any slot. */
  lemma SizeCheckWraps(cfg: Config, d: Dfu)
    requires cfg.Valid() && cfg.blockMax == 64 && d.blockCount == 0x400_0000
    ensures !TooLarge(cfg, d) && Capacity(cfg, d.blockCount) > cfg.slot && !CheckedRight(cfg, d.blockCount)
  {
  }
}
