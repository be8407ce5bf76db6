/** What `init_area` computes from the raw bytes of a partition, and when it finds again the
    indices that were in RAM. */
module Recovery {
  import opened Bytes
  import opened Crc
  import opened RecordFormat

  const INVALID_INDEX: int := -1
  const READ_BUFFER: nat := 64

  /** CRC of a record read in chunks; a chunk that does not fit the partition cannot be read
      and is left out of the sum. */
  function ChunkedCrc(mem: seq<byte>, from: nat, size: nat, i: nat, crc: u16): u16
    decreases size - i
  {
    if i >= size then crc
    else
      var len := if i + READ_BUFFER < size then READ_BUFFER else size - i;
      var crc' := if from + i + len <= |mem| then Crc16(crc, mem[from + i..from + i + len]) else crc;
      ChunkedCrc(mem, from, size, i + READ_BUFFER, crc')
  }

  /** A header claims a record here and the CRC of the bytes behind it agrees. */
  predicate Intact(mem: seq<byte>, at: nat)
    requires at + HEADER <= |mem|
  {
    var h := HeaderAt(mem, at);
    h.magic == RECORD_VALID && h.crc == ChunkedCrc(mem, at + HEADER, h.size, 0, CRC16_SEED)
  }

  /** Where the scan looks after `at`. */
  function NextIndex(block: BlockSize, mem: seq<byte>, at: nat): (next: nat)
    requires at + HEADER <= |mem|
    ensures next > at
  {
    var h := HeaderAt(mem, at);
    at + if h.magic == RECORD_VALID then Span(block, h.size) else block
  }

  datatype Indices = Indices(rd: int, wr: int)

  /** The scan loop from `at`, with `rd` as found so far. */
  function ScanFrom(block: BlockSize, mem: seq<byte>, at: nat, rd: int): Indices
    requires at + HEADER <= |mem|
    decreases |mem| - at
  {
    var rd' := if rd == INVALID_INDEX && Intact(mem, at) then at else rd;
    if HeaderAt(mem, at).magic == RECORD_UNUSED then Indices(rd', at)
    else
      var next := NextIndex(block, mem, at);
      if next + HEADER < |mem| then ScanFrom(block, mem, next, rd') else Indices(rd', INVALID_INDEX)
  }

  datatype Recovered = Found(rd: nat, wr: nat) | Nothing

  predicate KnownMagic(magic: nat) {
    magic == RECORD_UNUSED || magic == RECORD_VALID || magic == RECORD_INVALID
  }

  /** From the indices the scan found to the ones `init_area` leaves in the area. */
  function Settle(size: nat, s: Indices): Recovered {
    if s.rd < 0 && s.wr < 0 then Nothing
    else
      var wr: nat := if s.wr < 0 then size else s.wr;
      Found(if s.rd < 0 then wr else s.rd, wr)
  }

  /** `init_area` on a whole partition. */
  function Recover(block: BlockSize, mem: seq<byte>): Recovered {
    if |mem| < HEADER || !KnownMagic(HeaderAt(mem, 0).magic) then Nothing
    else Settle(|mem|, ScanFrom(block, mem, 0, INVALID_INDEX))
  }

  // ---- the layout of a partition in use

  /** The header slot at `wr`, if there is room for one, reads as unused. */
  ghost predicate UnusedAt(mem: seq<byte>, wr: nat) {
    wr + HEADER <= |mem| ==> HeaderAt(mem, wr).magic == RECORD_UNUSED
  }

  /** Freed bytes up to `rd`, the records `q` up to `wr`, and anything behind. */
  ghost predicate Laid(block: BlockSize, mem: seq<byte>, rd: nat, q: seq<Record>, wr: nat) {
    && rd <= wr <= |mem|
    && Aligned(block, rd)
    && Chain(block, mem, rd, q, wr)
    && (0 < rd ==> HEADER <= rd && HeaderAt(mem, 0).magic == RECORD_INVALID)
  }

  /** ... with an unused header slot at `wr`. */
  ghost predicate Layout(block: BlockSize, mem: seq<byte>, rd: nat, q: seq<Record>, wr: nat) {
    Laid(block, mem, rd, q, wr) && UnusedAt(mem, wr)
  }

  /** The scan walks from `at` to exactly `rd` without meeting an unused header slot or
      anything that passes for an intact record. */
  predicate Skips(block: BlockSize, mem: seq<byte>, at: nat, rd: nat)
    decreases rd - at
  {
    at == rd || (
      && at < rd && at + HEADER <= |mem|
      && HeaderAt(mem, at).magic != RECORD_UNUSED && !Intact(mem, at)
      && Skips(block, mem, NextIndex(block, mem, at), rd))
  }

  /** The unused tail is one the strict loop test still reaches: longer than a header, or empty
      behind a stored record, or a whole partition that holds at least a header. */
  predicate TailSeen(size: nat, q: seq<Record>, wr: nat) {
    if q == [] then wr + HEADER < size || (wr == 0 && HEADER <= size)
    else wr + HEADER < size || wr == size
  }

  // ---- scanning records

  lemma {:induction false} ChunkedCrcIsCrc(mem: seq<byte>, from: nat, size: nat, i: nat, crc: u16)
    requires from + size <= |mem| && i <= size
    ensures ChunkedCrc(mem, from, size, i, crc) == Crc16(crc, mem[from + i..from + size])
    decreases size - i
  {
    hide Crc16Step;
    if i < size {
      var len := if i + READ_BUFFER < size then READ_BUFFER else size - i;
      assert mem[from + i..from + i + len] + mem[from + i + len..from + size] == mem[from + i..from + size];
      Crc16Append(crc, mem[from + i..from + i + len], mem[from + i + len..from + size]);
      if i + READ_BUFFER <= size {
        ChunkedCrcIsCrc(mem, from, size, i + READ_BUFFER, Crc16(crc, mem[from + i..from + i + len]));
      } else {
        assert mem[from + i + len..from + size] == [];
      }
    }
  }

  lemma RecordIsIntact(block: BlockSize, mem: seq<byte>, at: nat, r: Record)
    requires RecordAt(block, mem, at, r)
    ensures Intact(mem, at) && NextIndex(block, mem, at) == at + Span(block, |r|)
  {
    RecordBytes(block, mem, at, r);
    ChunkedCrcIsCrc(mem, at + HEADER, |r|, 0, CRC16_SEED);
  }

  /** One loop turn over a record. */
  lemma ScanPast(block: BlockSize, mem: seq<byte>, at: nat, r: Record, rd: int)
    requires RecordAt(block, mem, at, r)
    ensures at + Span(block, |r|) <= |mem|
    ensures var next := at + Span(block, |r|);
            var rd' := if rd == INVALID_INDEX then at else rd;
            ScanFrom(block, mem, at, rd)
            == if next + HEADER < |mem| then ScanFrom(block, mem, next, rd') else Indices(rd', INVALID_INDEX)
  {
    RecordIsIntact(block, mem, at, r);
  }

  /** Scanning a chain of records: the read index is the first of them, the write index its end
      unless the tail is too short for the loop to look at it. */
  lemma {:induction false} ScanChain(block: BlockSize, mem: seq<byte>, at: nat, q: seq<Record>, end: nat, rd: int)
    requires Chain(block, mem, at, q, end) && UnusedAt(mem, end) && at + HEADER <= |mem|
    ensures ScanFrom(block, mem, at, rd)
         == Indices(if rd == INVALID_INDEX && q != [] then at else rd,
                    if q == [] || end + HEADER < |mem| then end else INVALID_INDEX)
    decreases |q|
  {
    hide RecordAt, Span;
    if q != [] {
      var next := at + Span(block, |q[0]|);
      ScanPast(block, mem, at, q[0], rd);
      ChainBounds(block, mem, next, q[1..], end);
      if next + HEADER < |mem| {
        ScanChain(block, mem, next, q[1..], end, if rd == INVALID_INDEX then at else rd);
      }
    }
  }

  /** Over a chain with room for another header behind it the scan goes on at its end. */
  lemma {:induction false} ScanOver(block: BlockSize, mem: seq<byte>, at: nat, q: seq<Record>, end: nat, rd: int)
    requires Chain(block, mem, at, q, end) && at <= end && end + HEADER < |mem|
    ensures ScanFrom(block, mem, at, rd)
         == ScanFrom(block, mem, end, if rd == INVALID_INDEX && q != [] then at else rd)
    decreases |q|
  {
    hide RecordAt, Span;
    if q != [] {
      var next := at + Span(block, |q[0]|);
      ScanPast(block, mem, at, q[0], rd);
      ChainBounds(block, mem, next, q[1..], end);
      ScanOver(block, mem, next, q[1..], end, if rd == INVALID_INDEX then at else rd);
    }
  }

  // ---- scanning freed bytes

  lemma {:induction false} ScanSkips(block: BlockSize, mem: seq<byte>, at: nat, rd: nat)
    requires Skips(block, mem, at, rd) && at + HEADER <= |mem| && rd + HEADER < |mem|
    ensures ScanFrom(block, mem, at, INVALID_INDEX) == ScanFrom(block, mem, rd, INVALID_INDEX)
    decreases rd - at
  {
    if at < rd {
      SkipsForward(block, mem, NextIndex(block, mem, at), rd);
      ScanSkips(block, mem, NextIndex(block, mem, at), rd);
    }
  }

  lemma SkipsForward(block: BlockSize, mem: seq<byte>, at: nat, rd: nat)
    requires Skips(block, mem, at, rd)
    ensures at <= rd
  {
  }

  /** A read index once set stays, and a scan only finds indices ahead of it. */
  lemma {:induction false} ScanAhead(block: BlockSize, mem: seq<byte>, at: nat, rd: int)
    requires at + HEADER <= |mem|
    ensures var s := ScanFrom(block, mem, at, rd);
            && (rd != INVALID_INDEX ==> s.rd == rd)
            && (rd == INVALID_INDEX ==> s.rd == INVALID_INDEX || (at <= s.rd && s.rd + HEADER <= |mem|))
            && (s.wr == INVALID_INDEX || (at <= s.wr && s.wr + HEADER <= |mem|))
    decreases |mem| - at
  {
    var rd' := if rd == INVALID_INDEX && Intact(mem, at) then at else rd;
    var next := NextIndex(block, mem, at);
    if HeaderAt(mem, at).magic != RECORD_UNUSED && next + HEADER < |mem| {
      ScanAhead(block, mem, next, rd');
    }
  }

  /** If the scan settles on `rd` and `wr` it walked from `at` to `rd` undisturbed. */
  lemma {:induction false} ScanFoundMeansSkips(block: BlockSize, mem: seq<byte>, at: nat, rd: nat, wr: nat)
    requires at + HEADER <= |mem| && at <= rd <= wr <= |mem|
    requires Settle(|mem|, ScanFrom(block, mem, at, INVALID_INDEX)) == Found(rd, wr)
    ensures Skips(block, mem, at, rd)
    decreases |mem| - at
  {
    ScanAhead(block, mem, at, INVALID_INDEX);
    if at < rd && HeaderAt(mem, at).magic != RECORD_UNUSED {
      var next := NextIndex(block, mem, at);
      if next + HEADER < |mem| {
        if Intact(mem, at) {
          ScanAhead(block, mem, next, at);
        } else if next <= rd {
          ScanFoundMeansSkips(block, mem, next, rd, wr);
        } else {
          ScanAhead(block, mem, next, INVALID_INDEX);
        }
      }
    }
  }

  lemma RecoverBounds(block: BlockSize, mem: seq<byte>)
    ensures match Recover(block, mem) case Found(rd, wr) => rd <= |mem| && wr <= |mem| case Nothing => true
  {
    if HEADER <= |mem| {
      ScanAhead(block, mem, 0, INVALID_INDEX);
    }
  }

  /** The scan looks at block boundaries only. */
  lemma {:induction false} ScanAligned(block: BlockSize, mem: seq<byte>, at: nat, rd: int)
    requires at + HEADER <= |mem| && Aligned(block, at) && (rd == INVALID_INDEX || (0 <= rd && Aligned(block, rd)))
    ensures var s := ScanFrom(block, mem, at, rd);
            && (s.rd == INVALID_INDEX || (0 <= s.rd && Aligned(block, s.rd)))
            && (s.wr == INVALID_INDEX || (0 <= s.wr && Aligned(block, s.wr)))
    decreases |mem| - at
  {
    hide Rem, HeaderAt, Intact, Span;
    var rd' := if rd == INVALID_INDEX && Intact(mem, at) then at else rd;
    var next := NextIndex(block, mem, at);
    SpanAligned(block, at, HeaderAt(mem, at).size);
    BlockAligned(block, at);
    if HeaderAt(mem, at).magic != RECORD_UNUSED && next + HEADER < |mem| {
      ScanAligned(block, mem, next, rd');
    }
  }

  lemma BlockAligned(block: BlockSize, at: nat)
    requires Aligned(block, at)
    ensures Aligned(block, at + block) && Aligned(block, 0)
  {
    AlignedAdd(block, at, block);
  }

  // ---- the recovery theorem

  /** A write index that the scan finds is an unused header slot. */
  lemma {:induction false} ScanStopsAtUnused(block: BlockSize, mem: seq<byte>, at: nat, rd: int)
    requires at + HEADER <= |mem|
    ensures var s := ScanFrom(block, mem, at, rd);
            s.wr != INVALID_INDEX ==> 0 <= s.wr && s.wr + HEADER <= |mem| && HeaderAt(mem, s.wr).magic == RECORD_UNUSED
    decreases |mem| - at
  {
    var next := NextIndex(block, mem, at);
    if HeaderAt(mem, at).magic != RECORD_UNUSED && next + HEADER < |mem| {
      ScanStopsAtUnused(block, mem, next, if rd == INVALID_INDEX && Intact(mem, at) then at else rd);
    }
  }

  lemma FoundIsUnused(block: BlockSize, mem: seq<byte>, rd: nat, wr: nat)
    requires Recover(block, mem) == Found(rd, wr)
    ensures UnusedAt(mem, wr)
  {
    ScanStopsAtUnused(block, mem, 0, INVALID_INDEX);
    hide ScanFrom;
  }

  /** Recovery from bytes alone, for every partition in use: `init_area` finds the two indices
      again if and only if the freed bytes are walked over undisturbed, the tail is one the scan
      looks at, and it begins with an unused header slot. */
  lemma RecoverExactly(block: BlockSize, mem: seq<byte>, rd: nat, q: seq<Record>, wr: nat)
    requires Laid(block, mem, rd, q, wr)
    ensures Recover(block, mem) == Found(rd, wr)
       <==> Skips(block, mem, 0, rd) && TailSeen(|mem|, q, wr) && UnusedAt(mem, wr)
  {
    if UnusedAt(mem, wr) {
      RecoverUnused(block, mem, rd, q, wr);
    } else if Recover(block, mem) == Found(rd, wr) {
      FoundIsUnused(block, mem, rd, wr);
    }
  }

  lemma RecoverUnused(block: BlockSize, mem: seq<byte>, rd: nat, q: seq<Record>, wr: nat)
    requires Layout(block, mem, rd, q, wr)
    ensures Recover(block, mem) == Found(rd, wr)
       <==> Skips(block, mem, 0, rd) && TailSeen(|mem|, q, wr)
  {
    hide Rem, ChunkedCrc, Word, Crc16, Body;
    ChainBounds(block, mem, rd, q, wr);
    if |mem| >= HEADER {
      if Recover(block, mem) == Found(rd, wr) {
        ScanFoundMeansSkips(block, mem, 0, rd, wr);
      }
      if Skips(block, mem, 0, rd) {
        if rd + HEADER < |mem| {
          ScanSkips(block, mem, 0, rd);
          ScanChain(block, mem, rd, q, wr, INVALID_INDEX);
        } else if rd == 0 {
          ScanChain(block, mem, rd, q, wr, INVALID_INDEX);
        } else {
          SkipsToShortTail(block, mem, 0, rd);
        }
      }
    }
  }

  /** When fewer than nine bytes lie behind the freed ones the scan ends without any index. */
  lemma {:induction false} SkipsToShortTail(block: BlockSize, mem: seq<byte>, at: nat, rd: nat)
    requires Skips(block, mem, at, rd) && at + HEADER <= |mem| && at < rd && rd + HEADER >= |mem|
    ensures ScanFrom(block, mem, at, INVALID_INDEX) == Indices(INVALID_INDEX, INVALID_INDEX)
    decreases rd - at
  {
    var next := NextIndex(block, mem, at);
    SkipsForward(block, mem, next, rd);
    if next + HEADER < |mem| {
      SkipsToShortTail(block, mem, next, rd);
    }
  }
}
