/** A whole transfer, block by block: it arrives. */
module DfuTransfer {
  import opened Bytes
  import opened Errors
  import opened DfuSteps
  import opened DfuProof

  /** Nobody is in the middle of anything. */
  predicate AtRest(s: System) {
    s.free == 1 && s.full == 0 && s.producer == Idle && !s.consuming && s.checker == Quiet
  }

  /** The sender submits a block and waits until it is processed, if it is due. */
  function Turn(b: Block): seq<Event> { [Submit(b), TakeFree, LoadBlock, TakeFull, ProcessBlock] }

  function AfterTurn(cfg: Config, s: System, b: Block): System
    requires Shape(cfg, s.d) && 0 < cfg.sector
  {
    var loaded := Next(cfg, Next(cfg, Next(cfg, s, Submit(b)), TakeFree), LoadBlock);
    Next(cfg, Next(cfg, loaded, TakeFull), ProcessBlock)
  }

  /** The first `k` blocks of an image, in order. */
  function Transfer(blocks: seq<seq<byte>>, k: nat): seq<Event>
    requires k <= |blocks| < U32
  {
    if k == 0 then [] else Transfer(blocks, k - 1) + Turn(Block(k - 1, |blocks|, blocks[k - 1]))
  }

  /** An image of full and partial blocks that the slot can hold. */
  ghost predicate Sendable(cfg: Config, blocks: seq<seq<byte>>) {
    && 0 < |blocks| < U32 && Capacity(cfg, |blocks|) <= cfg.slot
    && forall i :: 0 <= i < |blocks| ==> |blocks[i]| <= cfg.blockMax
  }

  /** What loading does to the counters, and that the last block is always due. */
  lemma LoadCounts(cfg: Config, d: Dfu, b: Block)
    requires Shape(cfg, d)
    ensures var (d', ret) := Load(cfg, d, b.current, b.count, b.data);
            && d'.blockNumber == b.current
            && d'.blockCount == (if b.current == 0 then b.count else d.blockCount)
            && (d'.blockNumber + 1 == d'.blockCount ==> ret != Success)
            && (ret == InProgress || ret == Success || ret == NoMem)
  {
    hide Overlay;
  }

  /** One turn: the block is in, and behind the last block the transfer is finished. */
  lemma TurnLoads(cfg: Config, s: System, b: Block)
    requires Safe(cfg, s) && AtRest(s) && Expected(cfg, s.d, b)
    requires Shape(cfg, s.d) && 0 < cfg.sector && !Rejected(cfg, s.d, b.current, b.count, |b.data|)
    requires b.current == 0 || s.d.phase == Receiving
    requires var count := if b.current == 0 then b.count else s.d.blockCount;
             0 < count && Capacity(cfg, count) <= cfg.slot
    ensures var s' := AfterTurn(cfg, s, b);
            && AtRest(s')
            && s'.d.blocks == (if b.current == 0 then [] else s.d.blocks) + [b.data]
            && s'.d.blockNumber == b.current
            && s'.d.blockCount == (if b.current == 0 then b.count else s.d.blockCount)
            && (s'.d.phase == FinishedVerify <==> s'.d.blockNumber + 1 == s'.d.blockCount)
  {
    LoadKeeps(cfg, s.d, b);
    LoadCounts(cfg, s.d, b);
    var (d, ret) := Load(cfg, s.d, b.current, b.count, b.data);
    if ret == InProgress {
      ProcessOutcome(cfg, d);
    }
    hide Safe, Ready, Loaded, Expected, Rejected, Load, Consume, Capacity;
  }

  lemma ProcessOutcome(cfg: Config, d: Dfu)
    requires Loaded(cfg, d) && Shape(cfg, d) && 0 < cfg.sector && d.phase == Receiving
    requires 0 < d.blockCount && Capacity(cfg, d.blockCount) <= cfg.slot
    ensures var d' := Consume(cfg, d).0;
            && d'.blocks == d.blocks && d'.blockNumber == d.blockNumber && d'.blockCount == d.blockCount
            && (d'.phase == FinishedVerify <==> d.blockNumber + 1 == d.blockCount)
  {
    ReadyPhase(cfg, d);
    FitsIsAnnounced(cfg, d);
    hide Loaded, Ready, Consume, Finished, Content, Announced, Capacity;
    AnnouncedTurn(cfg, d);
  }

  lemma FitsIsAnnounced(cfg: Config, d: Dfu)
    requires Loaded(cfg, d) && Content(cfg, d) && 0 < d.blockCount && Capacity(cfg, d.blockCount) <= cfg.slot
    ensures Announced(cfg, d, d.blockNumber + 1)
  {
    NotTooLarge(cfg, d);
    FinishedNotContent(cfg, d);
    hide Content, Concat, Capacity, Finished;
  }

  lemma RunOneMore(cfg: Config, s: System, events: seq<Event>, e: Event)
    requires Shape(cfg, s.d) && 0 < cfg.sector
    ensures Run(cfg, s, events + [e]) == Next(cfg, Run(cfg, s, events), e)
    ensures FairRun(cfg, s, events + [e]) <==> FairRun(cfg, s, events) && Fair(cfg, Run(cfg, s, events), e)
  {
    assert (events + [e])[..|events|] == events;
  }

  /** A turn at the end of a run. */
  lemma RunTurn(cfg: Config, s: System, events: seq<Event>, b: Block)
    requires Shape(cfg, s.d) && 0 < cfg.sector
    ensures var t := Run(cfg, s, events);
            && Run(cfg, s, events + Turn(b)) == AfterTurn(cfg, t, b)
            && (FairRun(cfg, s, events) && Fair(cfg, t, Submit(b)) ==> FairRun(cfg, s, events + Turn(b)))
  {
    hide Next, Run, FairRun, Rejected, Capacity;
    var e1 := events + [Submit(b)];
    var e2 := e1 + [TakeFree];
    var e3 := e2 + [LoadBlock];
    var e4 := e3 + [TakeFull];
    RunOneMore(cfg, s, events, Submit(b));
    RunOneMore(cfg, s, e1, TakeFree);
    RunOneMore(cfg, s, e2, LoadBlock);
    RunOneMore(cfg, s, e3, TakeFull);
    RunOneMore(cfg, s, e4, ProcessBlock);
    assert events + Turn(b) == e4 + [ProcessBlock];
  }

  /** The parameter check lets the blocks of a transfer pass. */
  lemma NotRejected(cfg: Config, d: Dfu, b: Block)
    requires cfg.Valid() && |b.data| <= cfg.blockMax && b.current < b.count < U32
    requires b.current != 0 ==> b.current == d.blockNumber + 1 && d.blockCount == b.count
    ensures !Rejected(cfg, d, b.current, b.count, |b.data|)
  {
  }

  lemma {:induction false} TransferSoFar(cfg: Config, slot: seq<byte>, blocks: seq<seq<byte>>, k: nat)
    requires cfg.Valid() && |slot| == cfg.slot && Sendable(cfg, blocks) && k <= |blocks|
    ensures var s0, events := Initial(cfg, slot), Transfer(blocks, k);
            && FairRun(cfg, s0, events)
            && Safe(cfg, Run(cfg, s0, events)) && AtRest(Run(cfg, s0, events))
            && Run(cfg, s0, events).d.blocks == blocks[..k]
            && (0 < k ==> Run(cfg, s0, events).d.blockNumber == k - 1 && Run(cfg, s0, events).d.blockCount == |blocks|)
            && (Run(cfg, s0, events).d.phase == FinishedVerify <==> k == |blocks|)
    decreases k
  {
    hide Run, FairRun, Next, Safe, Capacity, Rejected, Expected, Turn, AfterTurn;
    var s0 := Initial(cfg, slot);
    StartOfTransfer(cfg, slot);
    if k > 0 {
      TransferSoFar(cfg, slot, blocks, k - 1);
      var s, b := Run(cfg, s0, Transfer(blocks, k - 1)), Block(k - 1, |blocks|, blocks[k - 1]);
      NotRejected(cfg, s.d, b);
      TransferIsFair(cfg, s, b);
      TurnLoads(cfg, s, b);
      RunTurn(cfg, s0, Transfer(blocks, k - 1), b);
      RunsAreSafe(cfg, s0, Transfer(blocks, k));
      assert blocks[..k] == blocks[..k - 1] + [blocks[k - 1]];
    }
  }

  lemma StartOfTransfer(cfg: Config, slot: seq<byte>)
    requires cfg.Valid() && |slot| == cfg.slot
    ensures var s0 := Initial(cfg, slot);
            Safe(cfg, s0) && AtRest(s0) && s0.d.blocks == [] && Run(cfg, s0, []) == s0 && FairRun(cfg, s0, [])
  {
    ClearedIsPristine(cfg, slot);
    hide Ready, Pristine, Orphan;
  }

  lemma TransferIsFair(cfg: Config, s: System, b: Block)
    requires b.current < b.count && Capacity(cfg, b.count) <= cfg.slot && |b.data| <= cfg.blockMax
    requires b.current != 0 ==> b.current == s.d.blockNumber + 1 && s.d.blockCount == b.count
    ensures Fair(cfg, s, Submit(b)) && Expected(cfg, s.d, b)
  {
    hide Pristine;
  }

  /** Every image that fits the slot can be transferred, and then the slot holds it: all its blocks
      one after the other, padded with 0xFF to a double word. */
  lemma TransferArrives(cfg: Config, slot: seq<byte>, blocks: seq<seq<byte>>)
    requires cfg.Valid() && |slot| == cfg.slot && Sendable(cfg, blocks)
    ensures var events := Transfer(blocks, |blocks|);
            && FairRun(cfg, Initial(cfg, slot), events)
            && var s := Run(cfg, Initial(cfg, slot), events);
            && s.d.phase == FinishedVerify && AtRest(s)
            && Stored(cfg, s.d.slot, Concat(blocks))
  {
    TransferSoFar(cfg, slot, blocks, |blocks|);
    assert blocks[..|blocks|] == blocks;
    hide Run, FairRun, Transfer, Concat, Sendable, Disciplined, Stored;
    EndToEnd(cfg, slot, Transfer(blocks, |blocks|));
  }
}
