/** What the parameter and size checks of the firmware update keep out, and what they let through:
    blocks behind the last one, and blocks of a transfer that was refused. */
module DfuRefusal {
  import opened Bytes
  import opened Division
  import opened SectorMath
  import opened Errors
  import opened DfuSteps
  import opened DfuProof
  import DfuTransfer

  /** Nobody starts a new transfer. */
  predicate NoFirstBlock(events: seq<Event>) {
    forall i :: 0 <= i < |events| ==> !(events[i].Submit? && events[i].block.current == 0)
  }

  predicate HoldsFirst(p: Producer) { !p.Idle? && p.block.current == 0 }

  // ---- behind the last block

  /** A block that passes the parameter check goes into a transfer exactly if its number is below the
      count announced with the first block; the check compares with the count it comes with. */
  lemma TakenExactly(cfg: Config, d: Dfu, b: Block)
    requires Ready(cfg, d) && !Rejected(cfg, d, b.current, b.count, |b.data|) && b.current != 0
    ensures Shape(cfg, d) && 0 < d.blockCount
    ensures var (d', ret) := Load(cfg, d, b.current, b.count, b.data);
            && (b.current < d.blockCount <==> d'.phase == Receiving)
            && (b.current < d.blockCount ==> ret != NoMem && d'.blocks == d.blocks + [b.data]
                                             && (if ret == InProgress then Loaded(cfg, d') else Ready(cfg, d')))
            && (b.current >= d.blockCount ==> d'.slot == d.slot && d'.log == d.log)
  {
    CheckedIsExpected(cfg, d, b);
    LoadKeeps(cfg, d, b);
    BelowCount(cfg, d, b);
    hide Ready, Loaded, Expected, Load, Capacity, Overlay;
  }

  lemma BelowCount(cfg: Config, d: Dfu, b: Block)
    requires Ready(cfg, d) && !Rejected(cfg, d, b.current, b.count, |b.data|) && b.current != 0
    ensures 0 < d.blockCount && (b.current < d.blockCount <==> d.phase == Receiving)
  {
    CheckedIsExpected(cfg, d, b);
    hide Content, Concat, Capacity, Stored, Disciplined;
    ReadyPhase(cfg, d);
  }

  /** Once a transfer is finished nothing reaches the slot before the next first block, whatever is
      sent. */
  lemma {:induction false} FinishedIsFrozen(cfg: Config, s: System, events: seq<Event>)
    requires Shape(cfg, s.d) && 0 < cfg.sector
    requires s.d.phase == FinishedVerify && !HoldsFirst(s.producer) && NoFirstBlock(events)
    ensures var t := Run(cfg, s, events);
            t.d.phase == FinishedVerify && !HoldsFirst(t.producer) && t.d.slot == s.d.slot && t.d.log == s.d.log
    decreases |events|
  {
    hide Consume, Rejected, Overlay;
    if events != [] {
      FinishedIsFrozen(cfg, s, events[..|events| - 1]);
    }
  }

  /** A block numbered at or behind the count is taken after the end and never written. */
  lemma BlockBeyondTheLast(cfg: Config, s: System, b: Block, events: seq<Event>)
    requires Ready(cfg, s.d) && s.producer == Loading(b) && Shape(cfg, s.d) && 0 < cfg.sector
    requires !Rejected(cfg, s.d, b.current, b.count, |b.data|) && b.current != 0 && NoFirstBlock(events)
    ensures b.current >= s.d.blockCount ==>
              var t := Run(cfg, Next(cfg, s, LoadBlock), events);
              t.d.phase == FinishedVerify && t.d.slot == s.d.slot && t.d.log == s.d.log
  {
    TakenExactly(cfg, s.d, b);
    if b.current >= s.d.blockCount {
      hide Ready, Load, Run;
      FinishedIsFrozen(cfg, Next(cfg, s, LoadBlock), events);
    }
  }

  // ---- a refused transfer

  /** The producer has checked a block of the refused transfer that will be due on its own. */
  predicate Late(p: Producer) {
    p.Checked? && p.block.current != 0 && (|p.block.data| >= WRITE_SIZE || p.block.current == U32 - 1)
  }

  /** The state is cleared, no block that is due is on its way, and nothing has been written. */
  ghost predicate Waiting(cfg: Config, s: System) {
    && Shape(cfg, s.d) && 0 < cfg.sector && Tokens(s) == 1 && s.full == 0 && !s.consuming
    && s.d.blockCount == 0 && s.d.phase == Receiving && s.d.log == []
    && (s.producer.Idle?
        || (&& s.d.wrIdx == 0 && s.producer.block.current != 0 && s.producer.block.current != U32 - 1
            && |s.producer.block.data| < WRITE_SIZE))
  }

  lemma WaitingStep(cfg: Config, s: System, e: Event)
    requires Waiting(cfg, s) && !(e.Submit? && e.block.current == 0)
    ensures Waiting(cfg, Next(cfg, s, e)) && Next(cfg, s, e).d.slot == s.d.slot
  {
    hide Consume, Overlay;
  }

  lemma {:induction false} WaitingRun(cfg: Config, s: System, events: seq<Event>)
    requires Waiting(cfg, s) && Shape(cfg, s.d) && 0 < cfg.sector && NoFirstBlock(events)
    ensures Waiting(cfg, Run(cfg, s, events)) && Run(cfg, s, events).d.slot == s.d.slot
    decreases |events|
  {
    hide Waiting, Next;
    if events != [] {
      WaitingRun(cfg, s, events[..|events| - 1]);
      WaitingStep(cfg, Run(cfg, s, events[..|events| - 1]), events[|events| - 1]);
    }
  }

  /** The turn of the thread that refuses an image. */
  lemma Refusal(cfg: Config, s: System)
    requires Safe(cfg, s) && s.consuming && Content(cfg, s.d) && Oversized(cfg, s.d)
    ensures Shape(cfg, s.d) && 0 < cfg.sector
    ensures var t := Next(cfg, s, ProcessBlock);
            && t.d == Cleared(cfg, s.d.slot) && t.producer == s.producer && !t.producer.Loading?
            && t.free == 1 && t.full == 0 && !t.consuming && Tokens(t) == 1 && t.checker == Quiet
  {
    OversizedTurn(cfg, s.d);
    hide Content, Oversized, Consume, Loaded, Expected;
  }

  /** The steps of the block that comes too late. */
  const LATE: seq<Event> := [TakeFree, LoadBlock, TakeFull, ProcessBlock]

  lemma LateIsWritten(cfg: Config, t: System)
    requires cfg.Valid() && |t.d.slot| == cfg.slot && t.d == Cleared(cfg, t.d.slot)
    requires t.free == 1 && t.full == 0 && !t.consuming && Late(t.producer)
    requires |t.producer.block.data| <= cfg.blockMax
    ensures Shape(cfg, t.d) && 0 < cfg.sector
    ensures Run(cfg, t, LATE).d.log != []
  {
    FourSteps(cfg, t, TakeFree, LoadBlock, TakeFull, ProcessBlock);
    var b := t.producer.block;
    var (d, ret) := Load(cfg, t.d, b.current, b.count, b.data);
    CapacityGrows(cfg, 0, 0);
    hide Run, Overlay, Filled, Capacity, Boundary;
    assert ret == InProgress && d.flashOffset == 0 && d.blockCount == 0 && d.phase == Receiving;
    FirstWrite(cfg, d);
    hide Consume, Load;
  }

  lemma FirstWrite(cfg: Config, d: Dfu)
    requires Shape(cfg, d) && 0 < cfg.sector && d.flashOffset == 0 && Capacity(cfg, d.blockCount) == 0
    ensures Consume(cfg, d).0.log != []
  {
    hide Capacity, Overlay, PadTo8;
    Unique(0, cfg.sector, 0, 0);
  }

  lemma FourSteps(cfg: Config, s: System, a: Event, b: Event, c: Event, e: Event)
    requires Shape(cfg, s.d) && 0 < cfg.sector
    ensures Run(cfg, s, [a, b, c, e]) == Next(cfg, Next(cfg, Next(cfg, Next(cfg, s, a), b), c), e)
  {
    hide Next;
    DfuTransfer.RunOneMore(cfg, s, [], a);
    DfuTransfer.RunOneMore(cfg, s, [a], b);
    DfuTransfer.RunOneMore(cfg, s, [a, b], c);
    DfuTransfer.RunOneMore(cfg, s, [a, b, c], e);
    assert [] + [a] == [a] && [a] + [b] == [a, b] && [a, b] + [c] == [a, b, c] && [a, b, c] + [e] == [a, b, c, e];
  }

  /** A refused transfer leaves the flash alone until the next first block, whatever is sent, exactly
      if the sender had no block checked that is due on its own. */
  lemma RefusalIsFinalExactly(cfg: Config, s: System)
    requires Safe(cfg, s) && s.consuming && Content(cfg, s.d) && Oversized(cfg, s.d) && !HoldsFirst(s.producer)
    ensures Shape(cfg, s.d) && 0 < cfg.sector
    ensures (forall events: seq<Event> :: NoFirstBlock(events) ==>
               Run(cfg, Next(cfg, s, ProcessBlock), events).d.log == []) <==> !Late(s.producer)
    ensures !Late(s.producer) ==> forall events: seq<Event> :: NoFirstBlock(events) ==>
              Run(cfg, Next(cfg, s, ProcessBlock), events).d.slot == s.d.slot
  {
    Refusal(cfg, s);
    var t := Next(cfg, s, ProcessBlock);
    SafeProducer(cfg, s);
    hide Next, Run, Content, Oversized, Loaded, Expected;
    if Late(s.producer) {
      LateIsWritten(cfg, t);
      assert NoFirstBlock(LATE);
    } else {
      assert Waiting(cfg, t);
      forall events: seq<Event> | NoFirstBlock(events)
        ensures Run(cfg, t, events).d.log == [] && Run(cfg, t, events).d.slot == s.d.slot
      {
        WaitingRun(cfg, t, events);
      }
    }
  }

  lemma SafeProducer(cfg: Config, s: System)
    requires Safe(cfg, s)
    ensures cfg.Valid() && Shape(cfg, s.d)
    ensures !s.producer.Idle? ==> |s.producer.block.data| <= cfg.blockMax
  {
    SafeShape(cfg, s);
    hide Loaded, Ready, Pristine;
  }

  // ---- a run in which a refused transfer reaches the slot

  const SMALL: Config := Config(64, 256, 512)

  /** Block 0 of 9 is loaded and due; block 1 is checked; the thread refuses the image; block 1 is
      loaded and written. */
  function LateRun(b0: seq<byte>, b1: seq<byte>): seq<Event> {
    [Submit(Block(0, 9, b0)), TakeFree, LoadBlock, Submit(Block(1, 9, b1))] + [TakeFull, ProcessBlock] + LATE
  }

  /** A configuration, an image of 576 bytes for a slot of 512, and a run that leaves its second
      block at the start of the slot, without a transfer. */
  lemma LateBlockIsWritten(slot: seq<byte>, b0: seq<byte>, b1: seq<byte>)
    requires |slot| == SMALL.slot && |b0| == |b1| == 64
    ensures SMALL.Valid()
    ensures var d := Run(SMALL, Initial(SMALL, slot), LateRun(b0, b1)).d;
            && d.log == [Erase(0, 256), Write(0, 64)] && d.blockCount == 0 && d.flashOffset == 64
            && d.slot[..64] == b1
  {
    assert SMALL.Valid() by { SmallIsValid(); }
    var s0 := Initial(SMALL, slot);
    var first := [Submit(Block(0, 9, b0)), TakeFree, LoadBlock, Submit(Block(1, 9, b1))];
    FourSteps(SMALL, s0, first[0], first[1], first[2], first[3]);
    FirstIsLoaded(slot, b0, b1);
    DfuTransfer.RunOneMore(SMALL, s0, first, TakeFull);
    DfuTransfer.RunOneMore(SMALL, s0, first + [TakeFull], ProcessBlock);
    assert first + [TakeFull] + [ProcessBlock] == first + [TakeFull, ProcessBlock];
    FirstIsRefused(slot, b0, b1);
    RunFourMore(SMALL, s0, first + [TakeFull, ProcessBlock], TakeFree, LoadBlock, TakeFull, ProcessBlock);
    SecondIsWritten(slot, b1);
    hide Next, Run;
  }

  lemma SmallIsValid()
    ensures SMALL.Valid()
  {
  }

  lemma RunFourMore(cfg: Config, s: System, events: seq<Event>, a: Event, b: Event, c: Event, e: Event)
    requires Shape(cfg, s.d) && 0 < cfg.sector
    ensures Run(cfg, s, events + [a, b, c, e])
         == Next(cfg, Next(cfg, Next(cfg, Next(cfg, Run(cfg, s, events), a), b), c), e)
  {
    hide Next;
    DfuTransfer.RunOneMore(cfg, s, events, a);
    DfuTransfer.RunOneMore(cfg, s, events + [a], b);
    DfuTransfer.RunOneMore(cfg, s, events + [a] + [b], c);
    DfuTransfer.RunOneMore(cfg, s, events + [a] + [b] + [c], e);
    assert events + [a] + [b] + [c] + [e] == events + [a, b, c, e];
  }

  /** The state before the thread refuses the image ... */
  function LoadedFirst(slot: seq<byte>, b0: seq<byte>, b1: seq<byte>): System
    requires |b0| == 64
  {
    var d := Cleared(SMALL, slot).(blockCount := 9);
    System(d.(bytes := Overlay(d.bytes, 0, b0), wrIdx := 64, blocks := [b0]),
           0, 1, Checked(Block(1, 9, b1)), false, Quiet)
  }

  /** ... and after. */
  function Refused(slot: seq<byte>, b1: seq<byte>): System {
    System(Cleared(SMALL, slot), 1, 0, Checked(Block(1, 9, b1)), false, Quiet)
  }

  lemma FirstIsLoaded(slot: seq<byte>, b0: seq<byte>, b1: seq<byte>)
    requires |slot| == SMALL.slot && |b0| == |b1| == 64
    ensures Next(SMALL, Next(SMALL, Next(SMALL, Next(SMALL, Initial(SMALL, slot),
              Submit(Block(0, 9, b0))), TakeFree), LoadBlock), Submit(Block(1, 9, b1)))
         == LoadedFirst(slot, b0, b1)
  {
    hide Overlay, Consume;
    assert [] + [b0] == [b0];
  }

  lemma FirstIsRefused(slot: seq<byte>, b0: seq<byte>, b1: seq<byte>)
    requires |slot| == SMALL.slot && |b0| == |b1| == 64
    ensures Shape(SMALL, LoadedFirst(slot, b0, b1).d)
    ensures Next(SMALL, Next(SMALL, LoadedFirst(slot, b0, b1), TakeFull), ProcessBlock) == Refused(slot, b1)
  {
    assert Capacity(SMALL, 9) == 576;
    hide Overlay, Capacity;
  }

  lemma SecondIsWritten(slot: seq<byte>, b1: seq<byte>)
    requires |slot| == SMALL.slot && |b1| == 64
    ensures Shape(SMALL, Refused(slot, b1).d)
    ensures var d := Next(SMALL, Next(SMALL, Next(SMALL, Next(SMALL, Refused(slot, b1),
                       TakeFree), LoadBlock), TakeFull), ProcessBlock).d;
            && d.log == [Erase(0, 256), Write(0, 64)] && d.blockCount == 0 && d.flashOffset == 64
            && d.slot[..64] == b1
  {
    var d := Cleared(SMALL, slot).(blockNumber := 1);
    var d1 := d.(bytes := Overlay(d.bytes, 0, b1), wrIdx := 64, blocks := [b1]);
    assert [] + [b1] == [b1];
    WriteOfOne(d1, b1);
    hide Overlay, Consume;
    assert Load(SMALL, Cleared(SMALL, slot), 1, 9, b1) == (d1, InProgress);
  }

  lemma WriteOfOne(d: Dfu, b1: seq<byte>)
    requires Shape(SMALL, d) && |b1| == 64 && d.bytes[..64] == b1 && d.wrIdx == 64 && d.flashOffset == 0
    requires d.blockCount == 0 && d.blockNumber == 1 && d.log == []
    ensures var d' := Consume(SMALL, d).0;
            && d'.log == [Erase(0, 256), Write(0, 64)] && d'.blockCount == 0 && d'.flashOffset == 64
            && d'.slot[..64] == b1
  {
    assert [] + [Erase(0, 256)] == [Erase(0, 256)];
    assert [Erase(0, 256)] + [Write(0, 64)] == [Erase(0, 256), Write(0, 64)];
    var slot1 := Overlay(d.slot, 0, Blank(256));
    assert IsErased(slot1, 0, 64);
    assert Overlay(slot1, 0, b1)[..64] == b1;
  }
}
