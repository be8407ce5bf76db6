/** Two things that a publisher does not expect of what it stores: a record that is freed in place of
    another one, and a message that is too long only because it was stored. */
module PubSubLimits {
  import opened RecordFormat
  import opened Recovery
  import opened Fifo
  import opened PushOnFlash
  import opened PubSubSteps
  import opened Errors
  import CanTx
  import Crash

  // ---- a refused store between peek and free

  /** The queue [1] in front of what an interrupted push of [2] has left, after the boot. */
  function Rebooted(size: nat): Disk
    requires 64 <= size
  {
    Crash.LostQueue(size);
    Boot(8, Crash.Torn(8, Pushed(8, Reset(size), [1]), [2], 8))
  }

  function LosingRun(frame: Frame): seq<Act> {
    [Start, Peek, Deliver(frame, Success), Store([3]), Store([4]), Free]
  }

  lemma RebootedQueue(size: nat)
    requires 64 <= size
    ensures var t := Rebooted(size);
            && Laid(8, t.mem, t.rd, [[1]], t.wr)
            && Fits(8, t, 1) && DevicePush(8, t, [3]) == (Reset(size), Internal)
  {
    hide Boot, Chain, Reset, DevicePush, Span;
    Crash.LostQueue(size);
  }

  lemma StoredAfterReset(size: nat)
    requires 64 <= size
    ensures Fits(8, Reset(size), 1) && DevicePush(8, Reset(size), [4]) == (Pushed(8, Reset(size), [4]), Success)
    ensures var d := Pushed(8, Reset(size), [4]);
            HeadValid(d) && Holds(8, AfterFree(8, d), [])
  {
    hide Holds, Pushed, PushAccepted, Reset, AfterFree, HeadValid;
    RoomForOne(size);
    ResetHolds(8, size);
    HoldsAccepted(8, Reset(size), [], [4]);
    PushAppends(8, Reset(size), [], [4]);
    assert [] + [[4]] == [[4]] && [[4]][1..] == [];
    var d := Pushed(8, Reset(size), [4]);
    HoldsLaid(8, d, [[4]]);
    PeekOfQueue(8, d, [[4]], 0);
    FreeDrops(8, d, [[4]]);
  }

  lemma RoomForOne(size: nat)
    requires 64 <= size
    ensures Fits(8, Reset(size), 1)
  {
  }

  lemma RunPrefix(block: BlockSize, entrySize: nat, s: Bus, acts: seq<Act>, k: nat)
    requires k < |acts|
    ensures Run(block, entrySize, s, acts[..k + 1])
         == Next(block, entrySize, Run(block, entrySize, s, acts[..k]), acts[k])
  {
    RunOneMore(block, entrySize, s, acts[..k], acts[k]);
    assert acts[..k] + [acts[k]] == acts[..k + 1];
  }

  lemma SixSteps(entrySize: nat, s: Bus, acts: seq<Act>)
    requires |acts| == 6
    ensures var s3 := Next(8, entrySize, Next(8, entrySize, Next(8, entrySize, s, acts[0]), acts[1]), acts[2]);
            Run(8, entrySize, s, acts)
            == Next(8, entrySize, Next(8, entrySize, Next(8, entrySize, s3, acts[3]), acts[4]), acts[5])
  {
    hide Next, Run;
    RunOneMore(8, entrySize, s, [], acts[0]);
    RunPrefix(8, entrySize, s, acts, 0);
    RunPrefix(8, entrySize, s, acts, 1);
    RunPrefix(8, entrySize, s, acts, 2);
    RunPrefix(8, entrySize, s, acts, 3);
    RunPrefix(8, entrySize, s, acts, 4);
    RunPrefix(8, entrySize, s, acts, 5);
    assert acts[..0] == [] && acts[..6] == acts;
  }

  /** A run with a record that was accepted and is lost although the area had room for it: the thread
      hands over [1], the push of [3] is refused and erases the area, the push of [4] is taken, and the
      free that was meant for [1] drops [4]. Nobody has handed [4] over. */
  lemma FreedUnsent(size: nat, entrySize: nat, frame: Frame)
    requires 64 <= size && 1 <= entrySize && Carries(frame, [1])
    ensures var s := Bus(Rebooted(size), [[1]], 0, Sleeping, []);
            var t := Run(8, entrySize, s, LosingRun(frame));
            && Safe(8, entrySize, s)
            && t.accepted == [[1], [4]] && t.freed == 1 && t.events == [HandedOver(frame, Success)]
            && Holds(8, t.d, [])
  {
    hide Rebooted, DevicePush, Carries, AfterFree, PeekResult, Head, Holds, Pushed, HeadValid, Laid, Reset, Fits, Run;
    var s := Bus(Rebooted(size), [[1]], 0, Sleeping, []);
    RebootedQueue(size);
    assert [[1]][0..] == [[1]];
    PeekOfQueue(8, s.d, [[1]], entrySize);
    StoredAfterReset(size);
    SixSteps(entrySize, s, LosingRun(frame));
    var s3 := s.(flush := Freeing([1]), events := [HandedOver(frame, Success)]);
    assert Next(8, entrySize, Next(8, entrySize, Next(8, entrySize, s, Start), Peek), Deliver(frame, Success)) == s3;
    var s5 := s3.(d := Pushed(8, Reset(size), [4]), accepted := [[1], [4]]);
    assert Next(8, entrySize, Next(8, entrySize, s3, Store([3])), Store([4])) == s5;
  }

  // ---- four bytes too many

  /** For a plain CAN remote on a bus that is up: the flush thread's frame is refused for its size where
      publishing directly would not be exactly if the message has 61 to 64 bytes. Then nothing reaches
      the bus and the record is freed all the same. */
  lemma RefusedForSurplusExactly(block: BlockSize, entrySize: nat, bus: Bus, frame: Frame,
                                 blocks: nat, can: CanTx.System, p: nat)
    requires Safe(block, entrySize, bus) && bus.flush.Peeked? && Carries(frame, bus.flush.record)
    requires DESTINATION <= |bus.flush.record|
    requires CanTx.Shape(blocks, can) && p < |can.producers| && can.producers[p] == CanTx.Idle
    ensures var r := bus.flush.record;
            var direct := CanTx.Transmit(blocks, can, p, CanTx.Message(Destination(r), r[DESTINATION..]), false).1;
            var (can', stored) := CanTx.Transmit(blocks, can, p, CanTx.Message(frame.destination, frame.bytes), false);
            && (stored == InvalidParam <==> 61 <= |r[DESTINATION..]|)
            && (stored == InvalidParam && direct != InvalidParam <==> 61 <= |r[DESTINATION..]| <= 64)
            && (stored == InvalidParam ==>
                  && can' == can
                  && var t := Next(block, entrySize, Next(block, entrySize, bus, Deliver(frame, stored)), Free);
                  Safe(block, entrySize, t) && t.freed == bus.freed + 1 && t.accepted == bus.accepted
                  && bus.accepted[bus.freed] == r)
  {
    hide CanTx.Transmit, CanTx.Shape, Safe, AfterFreeing, Destination;
    var r := bus.flush.record;
    CanTx.TransmitSteps(blocks, can, p, CanTx.Message(Destination(r), r[DESTINATION..]));
    CanTx.TransmitSteps(blocks, can, p, CanTx.Message(frame.destination, frame.bytes));
    StepIsSafeExactly(block, entrySize, bus, Deliver(frame, InvalidParam));
    var bus' := Next(block, entrySize, bus, Deliver(frame, InvalidParam));
    FreeKeeps(block, entrySize, bus');
    FreeKeepsAccepted(block, bus');
  }

  lemma FreeKeepsAccepted(block: BlockSize, s: Bus)
    ensures AfterFreeing(block, s).accepted == s.accepted
  {
    hide AfterFree;
  }
}
