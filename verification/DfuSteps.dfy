/** The firmware-update block writer as atomic steps: a producer loads blocks into a shared buffer, a
    consumer writes the buffer to the secondary slot, and one token says who owns the state. */
module DfuSteps {
  import opened Bytes
  import opened SectorMath
  import opened Errors
  import opened Kernel

  const U32: nat := 0x1_0000_0000

  /** DFU_BLOCK_SIZE_MAX, DFU_FLASH_SECTOR_SIZE and the size of the secondary slot. */
  datatype Config = Config(blockMax: nat, sector: nat, slot: nat) {
    ghost predicate Valid() {
      && 1 <= blockMax <= 64
      && sector % WRITE_SIZE == 0 && WRITE_SIZE + blockMax + 8 <= sector
      && Boundary(slot, sector) && 0 < slot < U32
    }

    /** DFU_BLOCKS_BUFFER_SIZE. */
    function BufferSize(): (n: nat)
      ensures n % 8 == 0 && WRITE_SIZE + blockMax <= n && 63 + blockMax < n <= 71 + blockMax
    {
      var min := WRITE_SIZE - 1 + blockMax;
      min + 8 - min % 8
    }
  }

  /** DFU_IN_PROGRESS and DFU_FINISHED_VERIFY. */
  datatype Phase = Receiving | FinishedVerify

  datatype FlashOp = Erase(off: nat, len: nat) | Write(off: nat, len: nat)

  /** `dfu_state` and the slot it writes to, with a history of the current transfer that the firmware
      does not keep: the blocks loaded and the flash operations issued. */
  datatype Dfu = Dfu(bytes: seq<byte>, wrIdx: nat, blockNumber: nat, blockCount: nat, flashOffset: nat,
                     expectedCrc: nat, phase: Phase, slot: seq<byte>,
                     blocks: seq<seq<byte>>, log: seq<FlashOp>)

  predicate Shape(cfg: Config, d: Dfu) {
    |d.bytes| == cfg.BufferSize() && d.wrIdx <= |d.bytes| && |d.slot| == cfg.slot
  }

  function Zeros(n: nat): (s: seq<byte>)
    ensures |s| == n
  {
    seq(n, i => 0)
  }

  /** `memset(&dfu_state, 0, ...)`. */
  function Cleared(cfg: Config, slot: seq<byte>): Dfu {
    Dfu(Zeros(cfg.BufferSize()), 0, 0, 0, 0, 0, Receiving, slot, [], [])
  }

  // ---- producer

  /** The parameter check of `dfu_load`. */
  predicate Rejected(cfg: Config, d: Dfu, current: nat, count: nat, size: nat) {
    || (current != 0 && current != (d.blockNumber + 1) % U32)
    || current > count
    || size > cfg.blockMax
    || size > cfg.BufferSize()
    || (d.blockCount == 0 && current != 0)
  }

  /** `block_number == block_count - 1` on 32-bit unsigned integers. */
  predicate IsLast(d: Dfu) {
    d.blockNumber == if d.blockCount == 0 then U32 - 1 else d.blockCount - 1
  }

  /** A new transfer starts with block 0. */
  function Started(d: Dfu, current: nat, count: nat): Dfu {
    if current == 0
      then d.(blockNumber := 0, blockCount := count, flashOffset := 0, wrIdx := 0, expectedCrc := 0,
              phase := Receiving, blocks := [], log := [])
      else d.(blockNumber := current)
  }

  function Buffered(d: Dfu, data: seq<byte>): Dfu
    requires d.wrIdx + |data| <= |d.bytes|
  {
    d.(bytes := Overlay(d.bytes, d.wrIdx, data), wrIdx := d.wrIdx + |data|, blocks := d.blocks + [data])
  }

  /** What `dfu_load` does while it holds the token. */
  function Load(cfg: Config, d: Dfu, current: nat, count: nat, data: seq<byte>): (r: (Dfu, Ret))
    requires Shape(cfg, d)
    ensures Shape(cfg, r.0)
  {
    var d1 := Started(d, current, count);
    if d1.wrIdx + |data| > |d.bytes| then (d1, NoMem)
    else
      var d2 := Buffered(d1, data);
      (d2, if d2.wrIdx >= WRITE_SIZE || IsLast(d2) then InProgress else Success)
  }

  // ---- consumer

  function PadTo8(n: nat): (p: nat)
    ensures p < 8 && (n + p) % 8 == 0
  {
    if n % 8 == 0 then 0 else 8 - n % 8
  }

  /** The last block is filled up with 0xFF to a whole double word. */
  function Filled(cfg: Config, d: Dfu): (d': Dfu)
    requires Shape(cfg, d)
    ensures Shape(cfg, d')
  {
    if IsLast(d) then d.(bytes := Overlay(d.bytes, d.wrIdx, Blank(PadTo8(d.wrIdx))), phase := FinishedVerify) else d
  }

  function BytesToWrite(cfg: Config, d: Dfu): (n: nat)
    requires Shape(cfg, d)
    ensures n <= |d.bytes|
  {
    if IsLast(d) then d.wrIdx + PadTo8(d.wrIdx) else WRITE_SIZE
  }

  predicate NeedsErase(cfg: Config, d: Dfu, n: nat)
    requires 0 < cfg.sector
  {
    || Pos(d.flashOffset, cfg.sector) == 0
    || (n > WRITE_SIZE && Pos(d.flashOffset, cfg.sector) + n > cfg.sector)
  }

  /** The sector at the offset, or the next one if the offset is inside a sector. */
  function Erased(cfg: Config, d: Dfu): (Dfu, bool)
    requires Shape(cfg, d) && 0 < cfg.sector
  {
    var off := SectorEnd(d.flashOffset, cfg.sector);
    var d' := d.(log := d.log + [Erase(off, cfg.sector)]);
    if off + cfg.sector > cfg.slot then (d', false)
    else (d'.(slot := Overlay(d.slot, off, Blank(cfg.sector))), true)
  }

  /** A write is accepted inside the slot and on erased bytes. */
  function Written(cfg: Config, d: Dfu, n: nat): (Dfu, bool)
    requires Shape(cfg, d) && n <= |d.bytes|
  {
    var d' := d.(log := d.log + [Write(d.flashOffset, n)]);
    if d.flashOffset + n > cfg.slot || !IsErased(d.slot, d.flashOffset, d.flashOffset + n) then (d', false)
    else (d'.(slot := Overlay(d.slot, d.flashOffset, d.bytes[..n])), true)
  }

  /** What is left over moves to the front of the buffer. */
  function Advanced(cfg: Config, d: Dfu, n: nat): Dfu
    requires Shape(cfg, d) && n <= |d.bytes|
  {
    var left := if d.wrIdx >= n then d.bytes[n..d.wrIdx] else [];
    d.(bytes := Overlay(d.bytes, 0, left), wrIdx := |left|, flashOffset := d.flashOffset + n)
  }

  /** Bytes that `blocks` full blocks hold. */
  function Capacity(cfg: Config, blocks: nat): nat { blocks * cfg.blockMax }

  /** The size check on the first write, on 32-bit unsigned integers. */
  predicate TooLarge(cfg: Config, d: Dfu) {
    d.flashOffset == 0 && Capacity(cfg, d.blockCount) % U32 > cfg.slot
  }

  /** One turn of the processing thread on a transfer in progress. */
  function Consume(cfg: Config, d: Dfu): (r: (Dfu, Ret))
    requires Shape(cfg, d) && 0 < cfg.sector
    ensures Shape(cfg, r.0)
  {
    if TooLarge(cfg, d) then (Cleared(cfg, d.slot), InvalidParam)
    else
      var n := BytesToWrite(cfg, d);
      var d1 := Filled(cfg, d);
      var (d2, erased) := if NeedsErase(cfg, d, n) then Erased(cfg, d1) else (d1, true);
      if !erased then (d2, Internal)
      else
        var (d3, written) := Written(cfg, d2, n);
        if !written then (d3, Internal) else (Advanced(cfg, d3, n), Success)
  }

  // ---- the two semaphores and the threads around them

  type uint32 = x: int | 0 <= x < 0x1_0000_0000

  datatype Block = Block(current: uint32, count: uint32, data: seq<byte>)

  datatype Producer = Idle | Checked(block: Block) | Loading(block: Block)
  datatype Checker = Quiet | Requesting(crc: nat)

  /** `free` and `full` are the counts of sem_dfu_free_space and sem_dfu_full. */
  datatype System = System(d: Dfu, free: nat, full: nat, producer: Producer, consuming: bool, checker: Checker)

  datatype Event =
    | Submit(block: Block)   // dfu_load: parameter check
    | TakeFree               // dfu_load: k_sem_take(free, K_NO_WAIT)
    | LoadBlock              // dfu_load: everything up to giving a semaphore
    | TakeFull               // thread: k_sem_take(full)
    | ProcessBlock           // thread: write or check, then give(free)
    | RequestCheck(crc: nat) // dfu_secondary_check_async: k_sem_take(free) within its timeout
    | QueueCheck             // dfu_secondary_check_async: the rest

  /** An event that is not enabled leaves the system as it is. */
  function Next(cfg: Config, s: System, e: Event): (s': System)
    requires Shape(cfg, s.d) && 0 < cfg.sector
    ensures Shape(cfg, s'.d)
  {
    match e
    case Submit(b) =>
      if s.producer == Idle && !Rejected(cfg, s.d, b.current, b.count, |b.data|)
        then s.(producer := Checked(b)) else s
    case TakeFree =>
      if !s.producer.Checked? then s
      else if s.free > 0 then s.(free := s.free - 1, producer := Loading(s.producer.block))
      else s.(producer := Idle)
    case LoadBlock =>
      if !s.producer.Loading? then s
      else
        var b := s.producer.block;
        var (d', ret) := Load(cfg, s.d, b.current, b.count, b.data);
        if ret == InProgress then s.(d := d', full := Give(s.full), producer := Idle)
        else s.(d := d', free := Give(s.free), producer := Idle)
    case TakeFull =>
      if !s.consuming && s.full > 0 then s.(full := s.full - 1, consuming := true) else s
    case ProcessBlock =>
      if !s.consuming then s
      else if s.d.phase == Receiving
        then s.(d := Consume(cfg, s.d).0, free := Give(s.free), consuming := false)
      else s.(free := Give(s.free), consuming := false)
    case RequestCheck(crc) =>
      if s.checker == Quiet && s.free > 0 then s.(free := s.free - 1, checker := Requesting(crc)) else s
    case QueueCheck =>
      if !s.checker.Requesting? then s
      else if s.d.phase == FinishedVerify
        then s.(d := s.d.(expectedCrc := s.checker.crc), full := Give(s.full), checker := Quiet)
      else s.(free := Give(s.free), checker := Quiet)
  }

  function Initial(cfg: Config, slot: seq<byte>): System {
    System(Cleared(cfg, slot), 1, 0, Idle, false, Quiet)
  }

  /** Any interleaving of the three parties is a sequence of events. */
  function Run(cfg: Config, s: System, events: seq<Event>): (s': System)
    requires Shape(cfg, s.d) && 0 < cfg.sector
    ensures Shape(cfg, s'.d)
    decreases |events|
  {
    if events == [] then s else Next(cfg, Run(cfg, s, events[..|events| - 1]), events[|events| - 1])
  }
}
