/** `dfu_load`, the processing thread and the image check as code over the shared `dfu_state`. */
module DfuDevice {
  import opened Bytes
  import opened Crc
  import opened SectorMath
  import opened Errors
  import opened Kernel
  import opened DfuSteps
  import DfuProof

  // ---- image check

  const TLV_INFO_MAGIC: nat := 0x6907
  const TLV_PROT_INFO_MAGIC: nat := 0x6908
  const IMAGE_HEADER: nat := 32

  function U32At(s: seq<byte>, at: nat): nat
    requires at + 4 <= |s|
  {
    Word(s[at], s[at + 1]) + 0x1_0000 * Word(s[at + 2], s[at + 3])
  }

  /** `ih_img_size` of the MCUboot header at the start of the slot. */
  function ImageField(slot: seq<byte>): nat
    requires IMAGE_HEADER <= |slot|
  {
    U32At(slot, 12)
  }

  /** Header, image and, if there is one, the TLV area behind them; `size_t` has 32 bits. */
  function TotalSize(slot: seq<byte>): nat
    requires IMAGE_HEADER <= |slot|
  {
    var size := (Word(slot[8], slot[9]) + ImageField(slot)) % U32;
    if size + 4 <= |slot| && Word(slot[size], slot[size + 1]) in {TLV_INFO_MAGIC, TLV_PROT_INFO_MAGIC}
      then (size + Word(slot[size + 2], slot[size + 3])) % U32
      else size
  }

  /** What the check answers: the CRC-32 of the whole image decides. */
  function CheckImage(slot: seq<byte>, crc32: u32): Ret
    requires IMAGE_HEADER <= |slot|
  {
    if ImageField(slot) == 0 then InvalidState
    else if TotalSize(slot) > |slot| then Internal
    else if Crc32Update(0, slot[..TotalSize(slot)]) == crc32 then Success
    else InvalidState
  }

  class Device {
    const cfg: Config
    const pageSize: nat // DFU_FLASH_PAGE_SIZE
    const bytes: array<byte>
    const slot: array<byte>
    var wrIdx: nat
    var blockNumber: nat
    var blockCount: nat
    var flashOffset: nat
    var expectedCrc: u32
    var phase: Phase
    var semFree: nat
    var semFull: nat
    ghost var blocks: seq<seq<byte>>
    ghost var log: seq<FlashOp>

    ghost predicate WellFormed()
      reads this
    {
      && 0 < cfg.sector && 0 < pageSize && bytes != slot
      && bytes.Length == cfg.BufferSize() && wrIdx <= bytes.Length
      && slot.Length == cfg.slot && IMAGE_HEADER <= cfg.slot
    }

    ghost function View(): (d: Dfu)
      requires WellFormed()
      reads this, bytes, slot
      ensures Shape(cfg, d)
    {
      Dfu(bytes[..], wrIdx, blockNumber, blockCount, flashOffset, expectedCrc, phase, slot[..], blocks, log)
    }

    /** `dfu_load`: parameters, token, state. */
    method DfuLoad(current: nat, count: nat, data: seq<byte>) returns (ret: Ret)
      requires WellFormed()
      modifies this, bytes
      ensures WellFormed()
      ensures Rejected(cfg, old(View()), current, count, |data|) ==> ret == InvalidParam
      ensures !Rejected(cfg, old(View()), current, count, |data|) && old(semFree) == 0 ==> ret == Busy
      ensures Rejected(cfg, old(View()), current, count, |data|) || old(semFree) == 0 ==>
                View() == old(View()) && semFree == old(semFree) && semFull == old(semFull)
      ensures !Rejected(cfg, old(View()), current, count, |data|) && old(semFree) > 0 ==>
                && (View(), ret) == Load(cfg, old(View()), current, count, data)
                && semFull == (if ret == InProgress then Give(old(semFull)) else old(semFull))
                && semFree == (if ret == InProgress then old(semFree) - 1 else Give(old(semFree) - 1))
    {
      if (current != 0 && current != (blockNumber + 1) % U32) || current > count || |data| > cfg.blockMax
         || |data| > bytes.Length || (blockCount == 0 && current != 0) {
        return InvalidParam;
      }
      if semFree == 0 {
        return Busy;
      }
      semFree := semFree - 1;
      hide Overlay, Rejected;
      Start(current, count);
      if wrIdx + |data| > bytes.Length {
        semFree := Give(semFree);
        return NoMem;
      }
      Append(data);
      if wrIdx >= WRITE_SIZE || blockNumber == (if blockCount == 0 then U32 - 1 else blockCount - 1) {
        semFull := Give(semFull);
        return InProgress;
      }
      semFree := Give(semFree);
      ret := Success;
    }

    /** Block 0 starts a new transfer. */
    method Start(current: nat, count: nat)
      requires WellFormed()
      modifies this`blockCount, this`blockNumber, this`flashOffset, this`wrIdx, this`expectedCrc, this`phase
      modifies this`blocks, this`log
      ensures WellFormed() && View() == Started(old(View()), current, count)
    {
      if current == 0 {
        blockCount, flashOffset, wrIdx, expectedCrc := count, 0, 0, 0;
        phase := Receiving;
        blocks, log := [], [];
      }
      blockNumber := current;
    }

    method Append(data: seq<byte>)
      requires WellFormed() && wrIdx + |data| <= bytes.Length
      modifies this`wrIdx, this`blocks, bytes
      ensures WellFormed() && View() == Buffered(old(View()), data)
    {
      forall i | 0 <= i < |data| {
        bytes[wrIdx + i] := data[i];
      }
      assert bytes[..] == Overlay(old(bytes[..]), wrIdx, data);
      wrIdx := wrIdx + |data|;
      blocks := blocks + [data];
    }

    /** One turn of the processing thread. */
    method ProcessBlock() returns (err: Ret)
      requires WellFormed() && semFull > 0
      modifies this, bytes, slot
      ensures WellFormed()
      ensures old(phase) == Receiving ==> (View(), err) == Consume(cfg, old(View()))
      ensures old(phase) == FinishedVerify ==>
                View() == old(View()) && err == CheckImage(old(slot[..]), old(expectedCrc))
      ensures semFull == old(semFull) - 1 && semFree == Give(old(semFree))
    {
      hide Consume;
      semFull := semFull - 1;
      match phase {
        case Receiving => err := WriteBlock();
        case FinishedVerify => err := SecondaryCheck(expectedCrc);
      }
      semFree := Give(semFree);
    }

    /** The transfer in progress: size check, padding, erase, write, move the rest to the front. */
    method WriteBlock() returns (err: Ret)
      requires WellFormed()
      modifies this, bytes, slot
      ensures WellFormed()
      ensures (View(), err) == Consume(cfg, old(View()))
      ensures semFull == old(semFull) && semFree == old(semFree)
    {
      hide Overlay, Filled, Erased, Written, Advanced, Cleared, BytesToWrite, Pos;
      if flashOffset == 0 && Capacity(cfg, blockCount) % U32 > slot.Length {
        Clear();
        return InvalidParam;
      }
      var n := Fill();
      var ok := true;
      if Pos(flashOffset, cfg.sector) == 0
         || (n > WRITE_SIZE && Pos(flashOffset, cfg.sector) + n > cfg.sector) {
        ok := EraseNext();
      }
      if !ok {
        return Internal;
      }
      ok := WriteSlot(n);
      if !ok {
        return Internal;
      }
      Advance(n);
      err := Success;
    }

    /** `memset(&dfu_state, 0, ...)`. */
    method Clear()
      requires WellFormed()
      modifies this`wrIdx, this`blockNumber, this`blockCount, this`flashOffset, this`expectedCrc, this`phase
      modifies this`blocks, this`log, bytes
      ensures WellFormed() && View() == Cleared(cfg, old(slot[..]))
    {
      wrIdx, blockNumber, blockCount, flashOffset, expectedCrc, phase := 0, 0, 0, 0, 0, Receiving;
      blocks, log := [], [];
      forall i | 0 <= i < bytes.Length {
        bytes[i] := 0;
      }
      assert bytes[..] == Zeros(bytes.Length);
    }

    /** How many bytes to write; the last block is padded to a double word. */
    method Fill() returns (n: nat)
      requires WellFormed()
      modifies this`phase, bytes
      ensures WellFormed() && View() == Filled(cfg, old(View())) && n == BytesToWrite(cfg, old(View()))
    {
      n := WRITE_SIZE;
      if blockNumber == (if blockCount == 0 then U32 - 1 else blockCount - 1) {
        n := wrIdx;
        RoomToPad(wrIdx, cfg);
        if wrIdx % 8 != 0 {
          forall i | wrIdx <= i < wrIdx + 8 - wrIdx % 8 {
            bytes[i] := ERASED;
          }
          n := n + (8 - wrIdx % 8);
        }
        assert bytes[..] == Overlay(old(bytes[..]), wrIdx, Blank(PadTo8(wrIdx)));
        phase := FinishedVerify;
      }
    }

    /** Erases the sector at the offset, or the next one when inside a sector. */
    method EraseNext() returns (ok: bool)
      requires WellFormed()
      modifies this`log, slot
      ensures WellFormed() && (View(), ok) == Erased(cfg, old(View()))
    {
      var off := SectorEnd(flashOffset, cfg.sector);
      log := log + [Erase(off, cfg.sector)];
      ok := off + cfg.sector <= slot.Length;
      if ok {
        forall i | off <= i < off + cfg.sector {
          slot[i] := ERASED;
        }
        assert slot[..] == Overlay(old(slot[..]), off, Blank(cfg.sector));
      } else {
        assert slot[..] == old(slot[..]);
      }
      assert bytes[..] == old(bytes[..]);
    }

    /** The flash accepts a write inside the slot and on erased bytes. */
    method WriteSlot(n: nat) returns (ok: bool)
      requires WellFormed() && n <= bytes.Length
      modifies this`log, slot
      ensures WellFormed() && (View(), ok) == Written(cfg, old(View()), n)
    {
      log := log + [Write(flashOffset, n)];
      ok := flashOffset + n <= slot.Length && IsErased(slot[..], flashOffset, flashOffset + n);
      if ok {
        forall i | 0 <= i < n {
          slot[flashOffset + i] := bytes[i];
        }
        assert slot[..] == Overlay(old(slot[..]), flashOffset, bytes[..n]);
      } else {
        assert slot[..] == old(slot[..]);
      }
      assert bytes[..] == old(bytes[..]);
    }

    /** Bytes not written yet move to the front of the buffer. */
    method Advance(n: nat)
      requires WellFormed() && n <= bytes.Length
      modifies this`wrIdx, this`flashOffset, bytes
      ensures WellFormed() && View() == Advanced(cfg, old(View()), n)
    {
      if wrIdx >= n {
        forall i | 0 <= i < wrIdx - n {
          bytes[i] := bytes[n + i];
        }
        assert bytes[..] == Overlay(old(bytes[..]), 0, old(bytes[n..wrIdx]));
        wrIdx := wrIdx - n;
      } else {
        assert bytes[..] == Overlay(old(bytes[..]), 0, []);
        wrIdx := 0;
      }
      flashOffset := flashOffset + n;
    }

    /** `dfu_secondary_check_async`: a check is queued only for a finished transfer. A call that finds
        the token but no finished transfer reports success without a check. */
    method CheckAsync(crc32: u32) returns (ret: Ret)
      requires WellFormed()
      modifies this`semFree, this`semFull, this`expectedCrc
      ensures WellFormed()
      ensures old(semFree) == 0 ==>
                ret == InvalidState && View() == old(View()) && semFree == 0 && semFull == old(semFull)
      ensures old(semFree) > 0 && phase == FinishedVerify ==>
                && ret == InProgress && View() == old(View()).(expectedCrc := crc32)
                && semFree == old(semFree) - 1 && semFull == Give(old(semFull))
      ensures old(semFree) > 0 && phase == Receiving ==>
                && ret == Success && View() == old(View())
                && semFree == Give(old(semFree) - 1) && semFull == old(semFull)
    {
      if semFree == 0 {
        return InvalidState;
      }
      semFree := semFree - 1;
      if phase == FinishedVerify {
        expectedCrc := crc32;
        semFull := Give(semFull);
        return InProgress;
      }
      semFree := Give(semFree);
      ret := Success;
    }

    /** The CRC over the image in the slot, page by page. */
    method SecondaryCheck(crc32: u32) returns (ret: Ret)
      requires WellFormed()
      ensures ret == CheckImage(slot[..], crc32)
    {
      hide Crc32Update, U32At;
      ghost var mem := slot[..];
      if ImageField(slot[..]) == 0 {
        return InvalidState;
      }
      var imgSize := TotalSize(slot[..]);
      var computed: u32 := 0;
      CrcOfNothing(mem);
      var off := 0;
      while off < imgSize
        invariant off <= imgSize || imgSize <= |mem|
        invariant (if off < imgSize then off else imgSize) <= |mem|
        invariant computed == Crc32Update(0, mem[..if off < imgSize then off else imgSize])
        decreases imgSize - off
      {
        var len := if imgSize - off < pageSize then imgSize - off else pageSize;
        if off + len > slot.Length {
          return Internal;
        }
        Crc32UpdateAppend(0, mem[..off], mem[off..off + len]);
        assert mem[..off] + mem[off..off + len] == mem[..off + len];
        computed := Crc32Update(computed, slot[off..off + len]);
        assert slot[off..off + len] == mem[off..off + len];
        off := off + pageSize;
      }
      if computed != crc32 {
        return InvalidState;
      }
      ret := Success;
    }
  }

  /** After a finished transfer of a whole image the check answers success exactly when the CRC-32 of
      the blocks of the image, as far as it reaches, is the expected one. */
  lemma CheckCoversTransfer(cfg: Config, d: Dfu, crc32: u32)
    requires DfuProof.Finished(cfg, d) && IMAGE_HEADER <= cfg.slot
    requires TotalSize(d.slot) <= |Concat(d.blocks[..d.blockCount])|
    ensures CheckImage(d.slot, crc32) == Success
       <==> && ImageField(d.slot) != 0
            && Crc32Update(0, Concat(d.blocks[..d.blockCount])[..TotalSize(d.slot)]) == crc32
  {
    hide TotalSize, ImageField, Crc32Update, Concat, PadTo8, DfuProof.Disciplined;
    var all, size := Concat(d.blocks[..d.blockCount]), TotalSize(d.slot);
    var end := |all| + PadTo8(|all|);
    assert d.slot[..end] == all + Blank(PadTo8(|all|));
    assert forall i :: 0 <= i < end ==> d.slot[i] == d.slot[..end][i];
    assert d.slot[..size] == all[..size];
  }

  lemma RoomToPad(wrIdx: nat, cfg: Config)
    requires wrIdx <= cfg.BufferSize()
    ensures wrIdx + PadTo8(wrIdx) <= cfg.BufferSize()
  {
  }

  lemma CrcOfNothing(mem: seq<byte>)
    ensures Crc32Update(0, mem[..0]) == 0
  {
  }
}
