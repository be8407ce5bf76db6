/** The storage FIFO: `struct storage_area_s` and the operations on it, as code over a flash
    partition. Every operation is a single critical section and so one step here. */
module Storage {
  import opened Bytes
  import opened Crc
  import opened RecordFormat
  import opened Recovery
  import opened Fifo
  import opened ByteLevel
  import opened FlashDevice
  import opened PushOnFlash
  import opened Errors

  lemma ZeroProgrammable(block: BlockSize, mem: seq<byte>, off: nat)
    requires off + HEADER <= |mem| && Aligned(block, off)
    ensures Programmable(block, mem, off, ZERO_HEADER)
  {
    AlignedAdd(block, off, off);
  }

  /** With 8-byte blocks a header is written whole or not at all. */
  lemma TornHeader(block: BlockSize, mem: seq<byte>, off: nat, header: seq<byte>)
    requires |header| == HEADER && off + HEADER <= |mem|
    ensures block == HEADER ==>
              forall k: nat :: k < HEADER && Aligned(block, k) ==> Overlay(mem, off, header[..k]) == mem
  {
  }

  class StorageArea {
    var fa: Flash?
    var rdIdx: int
    var wrIdx: int

    ghost predicate Shape()
      reads this
    {
      fa != null ==> 0 <= rdIdx && 0 <= wrIdx <= fa.mem.Length
    }

    ghost function View(): Disk
      requires Shape() && fa != null
      reads this, fa, if fa == null then {} else {fa.mem}
    {
      Disk(fa.mem[..], rdIdx, wrIdx)
    }

    /** The area is open and holds exactly the queue `q`. */
    ghost predicate Has(q: seq<Record>)
      reads this, fa, if fa == null then {} else {fa.mem}
      ensures Has(q) ==> fa != null && Shape()
    {
      fa != null && Shape() && Holds(fa.block, View(), q)
    }

    /** CRC over a record in flash, read through a 64-byte buffer. */
    method RecordCrc(from: nat, size: nat) returns (crc16: u16)
      requires fa != null
      ensures crc16 == ChunkedCrc(fa.mem[..], from, size, 0, CRC16_SEED)
    {
      hide Crc16;
      crc16 := CRC16_SEED;
      var i := 0;
      while i < size
        invariant ChunkedCrc(fa.mem[..], from, size, 0, CRC16_SEED)
               == ChunkedCrc(fa.mem[..], from, size, i, crc16)
        decreases size - i
      {
        var sizeToRead := if i + READ_BUFFER < size then READ_BUFFER else size - i;
        var ok, readBuffer := fa.Read(from + i, sizeToRead);
        assert ok ==> readBuffer == fa.mem[..][from + i..from + i + sizeToRead];
        if ok {
          crc16 := Crc16(crc16, readBuffer);
        }
        i := i + READ_BUFFER;
      }
    }

    method ReadHeader(at: nat) returns (ok: bool, header: Header)
      requires fa != null
      ensures ok <==> at + HEADER <= fa.mem.Length
      ensures header == if ok then HeaderAt(fa.mem[..], at) else Header(0, 0, 0)
    {
      var bytes;
      header := Header(0, 0, 0);
      ok, bytes := fa.Read(at, HEADER);
      if ok {
        header := HeaderAt(bytes, 0);
      }
    }

    /** The do-while loop of `init_area`. */
    method ScanRecords()
      requires fa != null && HEADER <= fa.mem.Length
      modifies this`rdIdx, this`wrIdx
      ensures Indices(rdIdx, wrIdx) == ScanFrom(fa.block, fa.mem[..], 0, INVALID_INDEX)
      ensures INVALID_INDEX <= rdIdx && INVALID_INDEX <= wrIdx
    {
      hide Rem, Padding, HeaderAt, ChunkedCrc;
      ghost var mem := fa.mem[..];
      rdIdx, wrIdx := INVALID_INDEX, INVALID_INDEX;
      var index: nat := 0;
      while true
        invariant index + HEADER <= |mem| && mem == fa.mem[..]
        invariant INVALID_INDEX <= rdIdx && wrIdx == INVALID_INDEX
        invariant ScanFrom(fa.block, mem, 0, INVALID_INDEX) == ScanFrom(fa.block, mem, index, rdIdx)
        decreases |mem| - index
      {
        var _, header := ReadHeader(index);
        // reading starts at the first intact record
        if rdIdx == INVALID_INDEX && header.magic == RECORD_VALID {
          var crc16 := RecordCrc(index + HEADER, header.size);
          if header.crc == crc16 {
            rdIdx := index;
          }
        }
        // writing goes on where nothing was written
        if wrIdx == INVALID_INDEX && header.magic == RECORD_UNUSED {
          wrIdx := index;
          return;
        }
        if header.magic == RECORD_VALID {
          index := index + HEADER + header.size + Padding(fa.block, header.size);
        } else {
          index := index + fa.block;
        }
        if index + HEADER >= fa.mem.Length {
          return;
        }
      }
    }

    method InitArea() returns (ret: Ret)
      requires fa != null
      modifies this`rdIdx, this`wrIdx
      ensures ret == (if Recover(fa.block, fa.mem[..]) == Nothing then InvalidState else Success)
      ensures 0 <= rdIdx && 0 <= wrIdx
      ensures Found(rdIdx, wrIdx) == if ret == Success then Recover(fa.block, fa.mem[..]) else Found(0, 0)
    {
      hide Rem, HeaderAt, ScanFrom;
      rdIdx, wrIdx := INVALID_INDEX, INVALID_INDEX;
      // the partition has to begin with a header in some state
      var ok, header := ReadHeader(0);
      if !ok || !KnownMagic(header.magic) {
        rdIdx, wrIdx := 0, 0;
        return InvalidState;
      }
      ScanRecords();
      if rdIdx == INVALID_INDEX && wrIdx == INVALID_INDEX {
        rdIdx, wrIdx := 0, 0;
        return InvalidState;
      }
      // records up to the end
      if rdIdx != INVALID_INDEX && wrIdx == INVALID_INDEX {
        wrIdx := fa.mem.Length;
      }
      // nothing to read
      if rdIdx == INVALID_INDEX && wrIdx != INVALID_INDEX {
        rdIdx := wrIdx;
      }
      ret := Success;
    }

    /** `reset_area`. */
    method ResetArea()
      requires fa != null
      modifies this`rdIdx, this`wrIdx, fa.mem
      ensures Shape() && View() == Reset(fa.mem.Length)
    {
      fa.Erase();
      ErasedRecovers(fa.block, fa.mem.Length);
      var _ := InitArea();
    }

    /** `storage_init`; the argument is what `flash_area_open` found. */
    method Init(partition: Flash?) returns (ret: Ret)
      modifies this, if partition == null then {} else {partition.mem}
      ensures Shape() && fa == partition
      ensures partition == null ==> ret == NotInitialized
      ensures partition != null ==> ret == Success && View() == Boot(partition.block, old(partition.mem[..]))
    {
      fa := partition;
      rdIdx, wrIdx := 0, 0;
      if fa == null {
        return NotInitialized;
      }
      RecoverBounds(fa.block, fa.mem[..]);
      ret := InitArea();
      if ret != Success {
        fa.Erase();
        ret := Success;
      }
    }

    /** `storage_has_data`. */
    method HasData(ghost q: seq<Record>) returns (hasData: bool)
      requires Shape()
      ensures fa == null ==> !hasData
      ensures fa != null ==> (hasData <==> rdIdx != wrIdx)
      ensures Has(q) ==> (hasData <==> q != [])
    {
      if fa == null {
        return false;
      }
      hasData := rdIdx != wrIdx;
      if Has(q) {
        LayoutEnd(fa.block, View(), q);
      }
    }

    lemma HeaderIfInside()
      requires Shape() && fa != null
      ensures rdIdx + 8 <= fa.mem.Length ==>
                && (HeaderAt(fa.mem[..], rdIdx).magic == RECORD_VALID
                    <==> fa.mem[rdIdx] == 0xFE && fa.mem[rdIdx + 1] == 0xFE)
                && NextIndex(fa.block, fa.mem[..], rdIdx) == rdIdx + Stride(fa.block, fa.mem[..], rdIdx)
    {
      hide Stride, NextIndex, HeaderAt;
      if rdIdx + 8 <= fa.mem.Length {
        HeaderKind(fa.mem[..], rdIdx);
        NextIsStride(fa.block, fa.mem[..], rdIdx);
      }
    }

    /** `storage_is_last_record`. */
    method IsLastRecord(ghost q: seq<Record>) returns (isLast: bool)
      requires Shape()
      ensures fa == null ==> !isLast
      ensures fa != null ==>
                (isLast <==> && rdIdx != wrIdx && rdIdx + 8 <= fa.mem.Length
                             && fa.mem[rdIdx] == 0xFE && fa.mem[rdIdx + 1] == 0xFE
                             && rdIdx + Stride(fa.block, fa.mem[..], rdIdx) >= wrIdx)
      ensures Has(q) ==> (isLast <==> |q| == 1)
    {
      isLast := false;
      if fa == null || rdIdx == wrIdx {
        NotLast(q);
        return;
      }
      var ok, header := ReadHeader(rdIdx);
      HeaderIfInside();
      if !ok || header.magic != RECORD_VALID {
        NotLast(q);
        return;
      }
      var nextIdx := rdIdx + HEADER + header.size + Padding(fa.block, header.size);
      isLast := nextIdx >= wrIdx;
      LastIffReached(q);
    }

    /** `storage_peek`: the oldest record is copied into `buffer`. `size` is the room in `buffer`
        and comes back as the size of the record. */
    method Peek(buffer: array<byte>, size: nat, ghost q: seq<Record>) returns (ret: Ret, size': nat)
      requires Shape() && size <= buffer.Length
      requires fa != null ==> buffer != fa.mem
      modifies buffer, this`rdIdx, this`wrIdx, if fa == null then {} else {fa.mem}
      ensures Shape() && fa == old(fa)
      ensures fa == null ==> ret == NotInitialized && rdIdx == old(rdIdx) && wrIdx == old(wrIdx)
      ensures fa != null ==> View() == if ret == InvalidState then Reset(fa.mem.Length) else old(View())
      ensures fa != null ==> ret == PeekResult(old(View()), size)
      ensures ret == Success || size' == size
      ensures fa != null && ret == Success ==> size' <= size && buffer[..size'] == Head(old(View()))
      // what is delivered has the CRC of its header
      ensures fa != null && ret == Success ==>
                && rdIdx + 8 <= fa.mem.Length && Genuine(old(fa.mem[..]), rdIdx)
                && Number(old(fa.mem[..])[rdIdx + 4], old(fa.mem[..])[rdIdx + 5]) == Crc16(0xFFFF, buffer[..size'])
      ensures old(Has(q)) ==> ret == (if q == [] then NotFound else if size < |q[0]| then NoMem else Success)
      ensures old(Has(q)) ==> Has(q)
      ensures old(Has(q)) && ret == Success ==> size' == |q[0]| && buffer[..size'] == q[0]
    {
      hide HeaderAt, Holds, Crc16, Genuine;
      size' := size;
      PeekIfOpen(size);
      if fa == null {
        return NotInitialized, size';
      }
      // nothing stored
      if rdIdx == wrIdx {
        NotLast(q);
        return NotFound, size';
      }
      PeekFacts(q);
      var ok, header := ReadHeader(rdIdx);
      if !ok {
        ResetArea();
        return InvalidState, size';
      } else if size < header.size {
        return NoMem, size';
      }
      var record;
      ok, record := fa.Read(rdIdx + HEADER, header.size);
      if !ok {
        ResetArea();
        return InvalidState, size';
      }
      forall i | 0 <= i < |record| {
        buffer[i] := record[i];
      }
      assert buffer[..header.size] == record;
      if header.magic != RECORD_VALID || header.crc != Crc16(CRC16_SEED, buffer[..header.size]) {
        ResetArea();
        return InvalidState, size';
      }
      size' := header.size;
      ret := Success;
    }

    lemma PeekIfOpen(size: nat)
      requires Shape()
      ensures fa != null && PeekResult(View(), size) == Success ==>
                && rdIdx + 8 <= fa.mem.Length && Genuine(fa.mem[..], rdIdx)
                && rdIdx + 8 + HeaderAt(fa.mem[..], rdIdx).size <= fa.mem.Length
                && Number(fa.mem[..][rdIdx + 4], fa.mem[..][rdIdx + 5]) == Crc16(0xFFFF, Head(View()))
    {
      hide PeekResult, Head, Genuine, Crc16;
      if fa != null {
        PeekExactly(View(), size);
      }
    }

    /** The header at the read index describes the oldest record. */
    lemma PeekFacts(q: seq<Record>)
      requires Shape() && fa != null && rdIdx != wrIdx
      ensures Has(q) ==>
                && q != []
                && rdIdx + HEADER + |q[0]| <= fa.mem.Length
                && HeaderAt(fa.mem[..], rdIdx) == Header(RECORD_VALID, |q[0]|, Crc16(CRC16_SEED, q[0]))
                && fa.mem[..][rdIdx + HEADER..rdIdx + HEADER + |q[0]|] == q[0]
    {
      hide Rem, HeaderAt;
      if Has(q) {
        LayoutEnd(fa.block, View(), q);
        OldestRecord(fa.block, View(), q);
        RecordBytes(fa.block, fa.mem[..], rdIdx, q[0]);
      }
    }

    /** `storage_free`: the header of the oldest record is overwritten with zeros. */
    method Free(ghost q: seq<Record>) returns (ret: Ret)
      requires Shape()
      modifies this`rdIdx, this`wrIdx, if fa == null then {} else {fa.mem}
      ensures Shape() && fa == old(fa)
      ensures fa == null ==> ret == NotInitialized && rdIdx == old(rdIdx) && wrIdx == old(wrIdx)
      ensures fa != null && ret == NotFound ==> View() == old(View())
      ensures fa != null && fa.healthy && ret == Success ==> View() == AfterFree(fa.block, old(View()))
      ensures fa != null && fa.healthy && Aligned(fa.block, old(View()).rd) ==>
                && View() == AfterFree(fa.block, old(View()))
                && ret == (if HeadValid(old(View())) then Success else NotFound)
      ensures old(Has(q)) && q == [] ==> ret == NotFound
      ensures old(Has(q)) && q != [] ==> ret == Success || ret == Internal
      ensures old(Has(q)) && q != [] && fa.healthy ==> ret == Success && Has(q[1..])
      ensures old(Has(q)) && ret == Internal && fa.block == HEADER ==> Has(q)
    {
      hide Rem, HeaderAt, Programmable, Holds;
      if fa == null {
        return NotInitialized;
      }
      ghost var d := View();
      FreeFacts(q);
      var _, header := ReadHeader(rdIdx);
      if header.magic != RECORD_VALID {
        return NotFound;
      }
      // the size goes with the header
      var recordSize := header.size;
      var ok := fa.Write(rdIdx, ZERO_HEADER);
      if !ok {
        TornHeader(fa.block, d.mem, d.rd, ZERO_HEADER);
        return Internal;
      }
      rdIdx := rdIdx + HEADER + recordSize + Padding(fa.block, recordSize);
      assert fa.healthy ==> View() == Dropped(fa.block, d);
      if rdIdx >= wrIdx {
        var spaceLeft := fa.mem.Length - wrIdx;
        if spaceLeft < MINIMUM_EMPTY_SPACE {
          ResetArea();
        }
      }
      ret := Success;
    }

    lemma FreeFacts(q: seq<Record>)
      requires Shape() && fa != null
      ensures Has(q) ==> Holds(fa.block, AfterFree(fa.block, View()), if q == [] then [] else q[1..])
      ensures Has(q) && q == [] ==>
                rdIdx + HEADER > fa.mem.Length || HeaderAt(fa.mem[..], rdIdx).magic == RECORD_UNUSED
      ensures Has(q) && q != [] ==>
                && rdIdx + HEADER <= fa.mem.Length && HeaderAt(fa.mem[..], rdIdx).magic == RECORD_VALID
                && Programmable(fa.block, fa.mem[..], rdIdx, ZERO_HEADER)
      ensures Aligned(fa.block, rdIdx) && rdIdx + HEADER <= fa.mem.Length ==>
                Programmable(fa.block, fa.mem[..], rdIdx, ZERO_HEADER)
    {
      hide Rem, HeaderAt, Programmable, Dropped;
      if Aligned(fa.block, rdIdx) && rdIdx + HEADER <= fa.mem.Length {
        ZeroProgrammable(fa.block, fa.mem[..], rdIdx);
      }
      if Has(q) {
        LayoutEnd(fa.block, View(), q);
        FreeDrops(fa.block, View(), q);
        if q != [] {
          OldestRecord(fa.block, View(), q);
          SpanGrows(fa.block, |q[0]|);
          ZeroProgrammable(fa.block, fa.mem[..], rdIdx);
        }
      }
    }

    /** `storage_push`: the body is written behind the header slot, read back into `record`,
        checked, and only then made visible by the header. */
    method Push(record: array?<byte>, size: nat, ghost q: seq<Record>) returns (ret: Ret)
      requires Shape()
      requires record != null ==> size <= record.Length && (fa != null ==> record != fa.mem)
      modifies this`rdIdx, this`wrIdx, if fa == null then {} else {fa.mem}, if record == null then {} else {record}
      ensures Shape() && fa == old(fa)
      ensures ret == InvalidParam <==> record == null || size == 0 || (fa != null && size > fa.mem.Length)
      ensures ret == NotInitialized <==> record != null && size != 0 && fa == null
      ensures ret == NoMem <==> record != null && size != 0 && fa != null && size <= fa.mem.Length
                                && !Fits(fa.block, old(View()), size)
      ensures fa != null && ret in {InvalidParam, NoMem} ==> View() == old(View())
      ensures fa == null ==> rdIdx == old(rdIdx) && wrIdx == old(wrIdx)
      ensures record != null && ret in {InvalidParam, NoMem, NotInitialized} ==> record[..] == old(record[..])
      ensures fa != null && ret in {Internal, InvalidState} ==> View() == Reset(fa.mem.Length)
      ensures ret in {InvalidParam, NotInitialized, NoMem, Internal, InvalidState, Success}
      // a working device takes the record, or refuses it and loses the queue, whatever the tail holds
      ensures fa != null && fa.healthy && ret in {Internal, InvalidState, Success} ==>
                && record != null && 0 < size && Fits(fa.block, old(View()), size)
                && (View(), ret) == DevicePush(fa.block, old(View()), old(record[..])[..size])
                && (ret == Success ==> record[..size] == old(record[..])[..size])
      // on any device, what lies in flash behind an accepted header has the CRC of the record
      ensures fa != null && ret == Success ==>
                && old(wrIdx) + 8 + size <= fa.mem.Length
                && record[..size] == fa.mem[..][old(wrIdx) + 8..old(wrIdx) + 8 + size]
                && Crc16(0xFFFF, record[..size]) == Crc16(0xFFFF, old(record[..])[..size])
      // with a clean tail the record is appended
      ensures old(Has(q)) && fa.healthy ==> ret in {InvalidParam, NoMem, Success}
      ensures old(Has(q)) && ret in {InvalidParam, NoMem} ==> Has(q)
      ensures old(Has(q)) && fa.healthy && ret == Success ==>
                && View() == Pushed(fa.block, old(View()), old(record[..])[..size])
                && record[..size] == old(record[..])[..size]
                && (size <= MAX_RECORD ==> Has(q + [record[..size]]))
    {
      hide HeaderAt, Holds, Crc16, Programmable, Image, Body, HeaderBytes, Rem, PushAccepted;
      if record == null || size == 0 {
        return InvalidParam;
      }
      if fa == null {
        return NotInitialized;
      }
      if size > fa.mem.Length {
        return InvalidParam;
      }
      ghost var d, r, block := View(), record[..size], fa.block;
      var sizeInFlash, whole := size, size;
      var crc := Crc16(CRC16_SEED, record[..size]);
      var padding: seq<byte> := [];
      if Rem(fa.block, size) != 0 {
        sizeInFlash := size + (fa.block - Rem(fa.block, size));
        whole := size - Rem(fa.block, size);
        // the last block is filled up
        padding := record[whole..size] + Blank(fa.block - Rem(fa.block, size));
      }
      SplitBody(block, r, whole, padding);
      if wrIdx + HEADER + sizeInFlash > fa.mem.Length {
        return NoMem;
      }
      if Has(q) {
        HoldsAccepted(block, d, q, r);
        PushHolds(block, d, q, r);
      }
      ret := Store(record, size, crc, whole, padding, r);
    }

    /** The flash part of a push; any failure ends in a reset. */
    method Store(record: array<byte>, size: nat, crc: u16, whole: nat, padding: seq<byte>, ghost r: Record)
        returns (ret: Ret)
      requires Shape() && fa != null && record != fa.mem && 0 < size <= record.Length && r == record[..size]
      requires crc == Crc16(CRC16_SEED, r) && Fits(fa.block, View(), size)
      requires whole <= size && r[..whole] + padding == Body(fa.block, r)
      requires Aligned(fa.block, whole) && Aligned(fa.block, |padding|)
      modifies this`rdIdx, this`wrIdx, fa.mem, record
      ensures Shape() && ret in {Internal, InvalidState, Success}
      ensures ret != Success ==> View() == Reset(fa.mem.Length)
      ensures fa.healthy ==> (View(), ret) == DevicePush(fa.block, old(View()), r)
      ensures fa.healthy && ret == Success ==> record[..size] == r
      ensures ret == Success ==> LiesInFlash(old(wrIdx), record[..size], crc)
    {
      hide Crc16, Programmable, Body, PushHeader, Rem, Overlay, Padding, Reset, DevicePush, Pushed, Span, Fits;
      PushOutcome(fa.block, View(), r);
      BodyFits(fa.block, View(), r);
      ret := Program(record, size, crc, whole, padding, r);
      if ret != Success {
        ResetArea();
        return;
      }
      wrIdx := wrIdx + Span(fa.block, size);
    }

    /** The body is written, read back and checked; then the header is written. */
    method Program(record: array<byte>, size: nat, crc: u16, whole: nat, padding: seq<byte>, ghost r: Record)
        returns (ret: Ret)
      requires Shape() && fa != null && record != fa.mem && size <= record.Length && r == record[..size]
      requires crc == Crc16(CRC16_SEED, r) && wrIdx + HEADER + |Body(fa.block, r)| <= fa.mem.Length
      requires whole <= size && r[..whole] + padding == Body(fa.block, r)
      requires Aligned(fa.block, whole) && Aligned(fa.block, |padding|)
      modifies fa.mem, record
      ensures ret in {Internal, InvalidState, Success}
      ensures var m := Overlay(old(fa.mem[..]), wrIdx + HEADER, Body(fa.block, r));
              fa.healthy ==>
                && ret == (if Programmable(fa.block, old(fa.mem[..]), wrIdx + HEADER, Body(fa.block, r))
                              && Programmable(fa.block, m, wrIdx, PushHeader(r)) then Success else Internal)
                && (ret == Success ==> fa.mem[..] == Overlay(m, wrIdx, PushHeader(r)) && record[..size] == r)
      ensures ret == Success ==> LiesInFlash(wrIdx, record[..size], crc)
    {
      hide Crc16, Programmable, Body, PushHeader, Rem, Overlay, Padding, HeaderBytes;
      HeaderOf(size, crc, r);
      ret := ProgramBody(record, size, crc, whole, padding, r);
      if ret == Success {
        ghost var before := fa.mem[..];
        var ok := WriteHeader(size, crc);
        assert fa.mem[..][wrIdx + 8..wrIdx + 8 + size] == before[wrIdx + 8..wrIdx + 8 + size];
        if !ok {
          ret := Internal;
        }
      }
    }

    method ProgramBody(record: array<byte>, size: nat, crc: u16, whole: nat, padding: seq<byte>, ghost r: Record)
        returns (ret: Ret)
      requires Shape() && fa != null && record != fa.mem && size <= record.Length && r == record[..size]
      requires crc == Crc16(CRC16_SEED, r) && wrIdx + HEADER + |Body(fa.block, r)| <= fa.mem.Length
      requires whole <= size && r[..whole] + padding == Body(fa.block, r)
      requires Aligned(fa.block, whole) && Aligned(fa.block, |padding|)
      modifies fa.mem, record
      ensures ret in {Internal, InvalidState, Success}
      ensures fa.healthy ==>
                ret == if Programmable(fa.block, old(fa.mem[..]), wrIdx + HEADER, Body(fa.block, r))
                         then Success else Internal
      ensures fa.healthy && ret == Success ==>
                && record[..size] == r
                && fa.mem[..] == Overlay(old(fa.mem[..]), wrIdx + HEADER, Body(fa.block, r))
      ensures ret == Success ==> LiesInFlash(wrIdx, record[..size], crc)
    {
      hide Crc16, Programmable, Body, Rem, Overlay, Padding;
      BodyReadsBack(fa.block, fa.mem[..], wrIdx + HEADER, r);
      var ok := WriteBody(record[..size], whole, padding);
      if !ok {
        return Internal;
      }
      ghost var written := fa.mem[..];
      assert fa.healthy ==> written[wrIdx + HEADER..wrIdx + HEADER + size] == r;
      var rbCrc := ReadBack(record, size);
      assert fa.mem[..] == written;
      ret := if crc == rbCrc then Success else InvalidState;
    }

    /** Behind the header slot at `at` lies `s`, and `crc` is its CRC. */
    ghost predicate LiesInFlash(at: nat, s: seq<byte>, crc: u16)
      reads this, fa, if fa == null then {} else {fa.mem}
    {
      && fa != null && at + 8 + |s| <= fa.mem.Length
      && fa.mem[..][at + 8..at + 8 + |s|] == s && crc == Crc16(0xFFFF, s)
    }

    method WriteHeader(size: nat, crc: u16) returns (ok: bool)
      requires Shape() && fa != null
      modifies fa.mem
      ensures fa.healthy ==> ok == Programmable(fa.block, old(fa.mem[..]), wrIdx, HeaderBytes(size, crc))
      ensures fa.healthy && ok ==>
                wrIdx + HEADER <= fa.mem.Length
                && fa.mem[..] == Overlay(old(fa.mem[..]), wrIdx, HeaderBytes(size, crc))
      ensures forall i :: wrIdx + HEADER <= i < fa.mem.Length ==> fa.mem[i] == old(fa.mem[i])
    {
      hide HeaderBytes, BlockProgrammable;
      ok := fa.Write(wrIdx, HeaderBytes(size, crc));
    }

    /** What was written comes back into `record`. */
    method ReadBack(record: array<byte>, size: nat) returns (crc16: u16)
      requires Shape() && fa != null && record != fa.mem && size <= record.Length
      requires wrIdx + HEADER + size <= fa.mem.Length
      modifies record
      ensures record[..size] == fa.mem[..][wrIdx + HEADER..wrIdx + HEADER + size]
      ensures crc16 == Crc16(CRC16_SEED, record[..size])
    {
      hide Crc16;
      var _, readBack := fa.Read(wrIdx + HEADER, size);
      forall i | 0 <= i < size {
        record[i] := readBack[i];
      }
      assert record[..size] == readBack;
      crc16 := Crc16(CRC16_SEED, record[..size]);
    }

    /** The data writes of a push: whole blocks, then the padded end if there is one. A working device
        takes both, or refuses one of them, exactly as it would take or refuse the body at once. */
    method WriteBody(r: Record, whole: nat, padding: seq<byte>) returns (ok: bool)
      requires Shape() && fa != null && whole <= |r| && r[..whole] + padding == Body(fa.block, r)
      requires Aligned(fa.block, whole) && Aligned(fa.block, |padding|)
      requires wrIdx + HEADER + |Body(fa.block, r)| <= fa.mem.Length
      modifies fa.mem
      ensures fa.healthy ==> ok == Programmable(fa.block, old(fa.mem[..]), wrIdx + HEADER, Body(fa.block, r))
      ensures fa.healthy && ok ==>
                fa.mem[..] == Overlay(old(fa.mem[..]), wrIdx + HEADER, Body(fa.block, r))
    {
      hide Holds, Programmable, Rem, Body;
      ghost var mem := fa.mem[..];
      assert |r[..whole]| == whole && |r[..whole] + padding| == whole + |padding|;
      OverlayTwice(mem, wrIdx + HEADER, r[..whole], padding);
      TwoWritesAsOne(fa.block, mem, wrIdx + HEADER, r[..whole], padding);
      ok := fa.Write(wrIdx + HEADER, r[..whole]);
      if ok && padding != [] {
        ok := fa.Write(wrIdx + HEADER + whole, padding);
      }
    }

    lemma NotLast(q: seq<Record>)
      requires Shape()
      requires fa == null || rdIdx == wrIdx || rdIdx + HEADER > fa.mem.Length
            || HeaderAt(fa.mem[..], rdIdx).magic != RECORD_VALID
      ensures Has(q) ==> |q| == 0
    {
      hide Rem, HeaderAt, RecordAt, Dropped;
      if Has(q) && q != [] {
        LayoutEnd(fa.block, View(), q);
        OldestRecord(fa.block, View(), q);
      }
    }

    lemma LastIffReached(q: seq<Record>)
      requires Shape() && fa != null && rdIdx != wrIdx && rdIdx + HEADER <= fa.mem.Length
      ensures Has(q) ==> (|q| == 1 <==> rdIdx + Span(fa.block, HeaderAt(fa.mem[..], rdIdx).size) >= wrIdx)
    {
      hide Rem, HeaderAt, Span;
      if Has(q) {
        LayoutEnd(fa.block, View(), q);
        OldestRecord(fa.block, View(), q);
        ChainBounds(fa.block, fa.mem[..], rdIdx + Span(fa.block, |q[0]|), q[1..], wrIdx);
      }
    }
  }

  /** How the code splits a padded record into whole blocks and one padded block. */
  lemma SplitBody(block: BlockSize, r: Record, whole: nat, padding: seq<byte>)
    requires if Rem(block, |r|) == 0 then whole == |r| && padding == []
             else whole == |r| - Rem(block, |r|) && padding == r[whole..] + Blank(block - Rem(block, |r|))
    ensures whole <= |r| && r[..whole] + padding == Body(block, r)
    ensures Aligned(block, whole) && Aligned(block, |padding|)
  {
  }

  lemma HeaderOf(size: nat, crc: u16, r: Record)
    requires size == |r| && crc == Crc16(CRC16_SEED, r)
    ensures HeaderBytes(size, crc) == PushHeader(r)
  {
  }

  /** Once the body is in flash it reads back ... */
  lemma BodyReadsBack(block: BlockSize, mem: seq<byte>, off: nat, r: Record)
    requires off + |Body(block, r)| <= |mem|
    ensures off + |r| <= |mem| && Overlay(mem, off, Body(block, r))[off..off + |r|] == r
  {
    hide Rem, Padding, Overlay, Blank;
    ReadsBack(mem, off, r, Blank(Padding(block, |r|)));
  }

  /** ... and writing the header completes the push. */
  lemma PushOutcome(block: BlockSize, d: Disk, r: Record)
    requires Fits(block, d, |r|)
    ensures d.wr + HEADER + |Body(block, r)| <= |d.mem|
    ensures var m := Overlay(d.mem, d.wr + HEADER, Body(block, r));
            DevicePush(block, d, r)
            == if Programmable(block, d.mem, d.wr + HEADER, Body(block, r))
                  && Programmable(block, m, d.wr, PushHeader(r))
                 then (Disk(Overlay(m, d.wr, PushHeader(r)), d.rd, d.wr + Span(block, |r|)), Success)
               else (Reset(|d.mem|), Internal)
  {
    hide Rem, Crc16, HeaderBytes, Padding, Overlay, Body, Programmable, Reset;
    HeaderOverBody(d.mem, d.wr, HeaderBytes(|r|, Crc16(CRC16_SEED, r)), Body(block, r));
  }

  lemma PushHolds(block: BlockSize, d: Disk, q: seq<Record>, r: Record)
    requires Fits(block, d, |r|) && 0 < |r| && Holds(block, d, q)
    ensures |r| <= MAX_RECORD ==> Holds(block, Pushed(block, d, r), q + [r])
  {
    hide Holds, Pushed;
    if |r| <= MAX_RECORD {
      PushAppends(block, d, q, r);
    }
  }

  lemma ErasedRecovers(block: BlockSize, size: nat)
    ensures Recover(block, Blank(size)) == (if HEADER <= size then Found(0, 0) else Nothing)
  {
    if HEADER <= size {
      ResetHolds(block, size);
      assert HeaderAt(Blank(size), 0).magic == RECORD_UNUSED;
      assert !Intact(Blank(size), 0);
    }
  }
}
