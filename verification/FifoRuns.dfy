/** Whole runs of pushes, frees and reboots: the queue is a FIFO and every reboot finds it again
    from the bytes alone, provided freed payloads do not look like headers. */
module FifoRuns {
  import opened Bytes
  import opened Crc
  import opened RecordFormat
  import opened Recovery
  import opened Fifo
  import opened Errors

  /** Two bytes that `init_area` would take for an unused or a valid header. */
  predicate LooksLive(lo: byte, hi: byte) {
    Word(lo, hi) == RECORD_UNUSED || Word(lo, hi) == RECORD_VALID
  }

  lemma LiveBytes(lo: byte, hi: byte)
    ensures LooksLive(lo, hi) <==> lo == hi == 0xFF || lo == hi == 0xFE
  {
    WordIs(lo, hi);
  }

  /** The word at `p` is harmless; a word that is cut off at `end` must be so whatever follows. */
  predicate QuietAt(s: seq<byte>, p: nat, end: nat)
    requires p < end <= |s|
  {
    if p + 1 < end then !LooksLive(s[p], s[p + 1]) else s[p] != 0xFF && s[p] != 0xFE
  }

  /** No block boundary in `[0, end)` reads as a live header. */
  ghost predicate Quiet(block: BlockSize, s: seq<byte>, end: nat)
    requires end <= |s|
  {
    forall p: nat :: p < end && Aligned(block, p) ==> QuietAt(s, p, end)
  }

  /** A record that stays harmless after it is freed: what the caller can check before a push. */
  ghost predicate QuietRecord(block: BlockSize, r: Record) {
    Quiet(block, Body(block, r), |Body(block, r)|)
  }

  ghost predicate AllQuiet(block: BlockSize, q: seq<Record>) {
    forall i :: 0 <= i < |q| ==> QuietRecord(block, q[i])
  }

  /** Quiet freed bytes are walked over block by block. */
  lemma {:induction false} QuietSkips(block: BlockSize, mem: seq<byte>, at: nat, rd: nat)
    requires at <= rd && rd + HEADER <= |mem| && Quiet(block, mem, rd)
    requires Aligned(block, at) && Aligned(block, rd)
    ensures Skips(block, mem, at, rd)
    decreases rd - at
  {
    hide Rem;
    if at < rd {
      assert QuietAt(mem, at, rd);
      LiveBytes(mem[at], mem[at + 1]);
      NextBoundary(block, at, rd);
      QuietSkips(block, mem, at + block, rd);
    }
  }

  /** Freeing a quiet record keeps the freed bytes quiet. */
  lemma DropKeepsQuiet(block: BlockSize, mem: seq<byte>, rd: nat, r: Record)
    requires RecordAt(block, mem, rd, r) && Aligned(block, rd)
    requires Quiet(block, mem, rd) && QuietRecord(block, r)
    ensures Quiet(block, Zeroed(mem, rd), rd + Span(block, |r|))
  {
    assert rd + Span(block, |r|) <= |mem|;
    hide Rem, RecordAt;
    SpanAligned(block, rd, |r|);
    forall p: nat | p < rd + Span(block, |r|) && Aligned(block, p)
      ensures QuietAt(Zeroed(mem, rd), p, rd + Span(block, |r|))
    {
      DropKeepsQuietAt(block, mem, rd, r, p);
    }
  }

  lemma DropKeepsQuietAt(block: BlockSize, mem: seq<byte>, rd: nat, r: Record, p: nat)
    requires RecordAt(block, mem, rd, r) && Aligned(block, rd) && Aligned(block, rd + HEADER)
    requires Quiet(block, mem, rd) && QuietRecord(block, r)
    requires p < rd + Span(block, |r|) && Aligned(block, p)
    ensures QuietAt(Zeroed(mem, rd), p, rd + Span(block, |r|))
  {
    hide Rem, Body, Crc16, HeaderAt;
    var body := mem[rd + HEADER..rd + Span(block, |r|)];
    if p < rd {
      assert QuietAt(mem, p, rd);
    } else if rd + HEADER <= p {
      AlignedSub(block, p, rd + HEADER);
      assert QuietAt(body, p - (rd + HEADER), |body|);
    } else {
      LiveBytes(0, Zeroed(mem, rd)[p + 1]);
    }
  }

  // ---- runs

  datatype Op = Push(r: Record) | Free | Reboot

  function Step(block: BlockSize, d: Disk, op: Op): Disk {
    match op
    case Push(r) => AfterPush(block, d, r)
    case Free => AfterFree(block, d)
    case Reboot => Boot(block, d.mem)
  }

  /** The abstract queue: everything ever accepted, and how many of those were freed. */
  datatype Log = Log(accepted: seq<Record>, freed: nat) {
    ghost predicate Valid() { freed <= |accepted| }

    ghost function Queue(): seq<Record>
      requires Valid()
    {
      accepted[freed..]
    }
  }

  /** A push is accepted when it fits, a free drops the head, a reboot changes nothing. */
  ghost function StepLog(block: BlockSize, d: Disk, log: Log, op: Op): Log {
    match op
    case Push(r) => if Fits(block, d, |r|) then log.(accepted := log.accepted + [r]) else log
    case Free => if log.freed < |log.accepted| then log.(freed := log.freed + 1) else log
    case Reboot => log
  }

  /** What the theorem asks of a step: pushes of non-empty quiet records that the 16-bit size
      holds, and no reboot while one to eight bytes are left behind a stored record. */
  ghost predicate Fair(block: BlockSize, d: Disk, log: Log, op: Op)
    requires log.Valid()
  {
    match op
    case Push(r) => 0 < |r| <= MAX_RECORD && QuietRecord(block, r)
    case Free => true
    case Reboot => TailSeen(|d.mem|, log.Queue(), d.wr)
  }

  ghost predicate Invariant(block: BlockSize, d: Disk, log: Log) {
    && log.Valid()
    && Holds(block, d, log.Queue())
    && Quiet(block, d.mem, d.rd)
    && AllQuiet(block, log.Queue())
  }

  lemma PushStep(block: BlockSize, d: Disk, log: Log, r: Record)
    requires Invariant(block, d, log) && Fair(block, d, log, Push(r))
    ensures Invariant(block, Step(block, d, Push(r)), StepLog(block, d, log, Push(r)))
  {
    hide Rem, Span, Image, Chain, HeaderAt, QuietRecord;
    if Fits(block, d, |r|) {
      PushAppends(block, d, log.Queue(), r);
      assert (log.accepted + [r])[log.freed..] == log.Queue() + [r];
      var d' := Pushed(block, d, r);
      forall p: nat | p < d.rd && Aligned(block, p)
        ensures QuietAt(d'.mem, p, d.rd)
      {
        assert QuietAt(d.mem, p, d.rd);
      }
    }
  }

  lemma FreeStep(block: BlockSize, d: Disk, log: Log)
    requires Invariant(block, d, log)
    ensures Invariant(block, Step(block, d, Free), StepLog(block, d, log, Free))
  {
    hide Rem, Span, Zeroed, Chain, HeaderAt, QuietRecord, RecordAt, Dropped, Exhausted;
    var q := log.Queue();
    FreeDrops(block, d, q);
    if q != [] {
      OldestRecord(block, d, q);
      DropKeepsQuiet(block, d.mem, d.rd, q[0]);
      assert log.accepted[log.freed + 1..] == q[1..];
    }
  }

  /** The recovery property in one step: a reboot finds both indices again. */
  lemma RebootStep(block: BlockSize, d: Disk, log: Log)
    requires Invariant(block, d, log) && Fair(block, d, log, Reboot)
    ensures Boot(block, d.mem) == d
  {
    hide Span, Chain, HeaderAt, QuietRecord, Recover, Skips;
    LayoutEnd(block, d, log.Queue());
    QuietSkips(block, d.mem, 0, d.rd);
    RecoverExactly(block, d.mem, d.rd, log.Queue(), d.wr);
  }

  function Run(block: BlockSize, d: Disk, ops: seq<Op>): Disk {
    if ops == [] then d else Step(block, Run(block, d, ops[..|ops| - 1]), ops[|ops| - 1])
  }

  ghost function RunLog(block: BlockSize, d: Disk, log: Log, ops: seq<Op>): Log {
    if ops == [] then log
    else
      var before := ops[..|ops| - 1];
      StepLog(block, Run(block, d, before), RunLog(block, d, log, before), ops[|ops| - 1])
  }

  /** Every step of the run is fair in the state it meets. */
  ghost predicate FairRun(block: BlockSize, d: Disk, log: Log, ops: seq<Op>) {
    ops == [] || (
      var before := ops[..|ops| - 1];
      var log' := RunLog(block, d, log, before);
      FairRun(block, d, log, before) && log'.Valid() && Fair(block, Run(block, d, before), log', ops[|ops| - 1]))
  }

  /** FIFO over every run, reboots included: what the partition holds is what was accepted
      minus the oldest records that were freed, and each reboot left the state as it was. */
  lemma {:induction false} RunsAreFifo(block: BlockSize, d: Disk, log: Log, ops: seq<Op>)
    requires Invariant(block, d, log) && FairRun(block, d, log, ops)
    ensures Invariant(block, Run(block, d, ops), RunLog(block, d, log, ops))
    decreases |ops|
  {
    hide Invariant, Fair;
    if ops != [] {
      var before := ops[..|ops| - 1];
      RunsAreFifo(block, d, log, before);
      AnyStep(block, Run(block, d, before), RunLog(block, d, log, before), ops[|ops| - 1]);
    }
  }

  lemma AnyStep(block: BlockSize, d: Disk, log: Log, op: Op)
    requires Invariant(block, d, log) && Fair(block, d, log, op)
    ensures Invariant(block, Step(block, d, op), StepLog(block, d, log, op))
    ensures op == Reboot ==> Step(block, d, op) == d
  {
    hide AfterPush, AfterFree, Boot, Holds, Quiet, AllQuiet, QuietRecord, Fits;
    match op
    case Push(r) => PushStep(block, d, log, r);
    case Free => FreeStep(block, d, log);
    case Reboot => RebootStep(block, d, log);
  }

  /** The same from an erased partition of any size that holds a header. */
  lemma RunsFromErased(block: BlockSize, size: nat, ops: seq<Op>)
    requires HEADER <= size && FairRun(block, Reset(size), Log([], 0), ops)
    ensures var d, log := Run(block, Reset(size), ops), RunLog(block, Reset(size), Log([], 0), ops);
            log.Valid() && Holds(block, d, log.Queue())
  {
    hide Rem;
    ResetHolds(block, size);
    RunsAreFifo(block, Reset(size), Log([], 0), ops);
  }

  // ---- without the hypothesis on payloads

  /** Pushes of any non-empty record that the 16-bit size holds, and frees. */
  ghost predicate Ordinary(ops: seq<Op>) {
    forall i :: 0 <= i < |ops| ==> ops[i] == Free || (ops[i].Push? && 0 < |ops[i].r| <= MAX_RECORD)
  }

  /** Whatever the payloads are, a run of pushes and frees is a FIFO ... */
  lemma {:induction false} OrdinaryRunsHold(block: BlockSize, d: Disk, log: Log, ops: seq<Op>)
    requires log.Valid() && Holds(block, d, log.Queue()) && Ordinary(ops)
    ensures var log' := RunLog(block, d, log, ops);
            log'.Valid() && Holds(block, Run(block, d, ops), log'.Queue())
    decreases |ops|
  {
    hide Holds, AfterFree, Fits;
    if ops != [] {
      var before, op := ops[..|ops| - 1], ops[|ops| - 1];
      OrdinaryRunsHold(block, d, log, before);
      var d1, log1 := Run(block, d, before), RunLog(block, d, log, before);
      if op == Free {
        FreeDrops(block, d1, log1.Queue());
        assert log1.freed < |log1.accepted| ==> log1.accepted[log1.freed + 1..] == log1.Queue()[1..];
      } else if Fits(block, d1, |op.r|) {
        PushAppends(block, d1, log1.Queue(), op.r);
        assert (log1.accepted + [op.r])[log1.freed..] == log1.Queue() + [op.r];
      }
    }
  }

  /** ... and the bytes it leaves are recovered to the same indices exactly when the freed bytes
      are walked over undisturbed and the tail is one the scan looks at. */
  lemma OrdinaryRunsRecoverExactly(block: BlockSize, size: nat, ops: seq<Op>)
    requires HEADER <= size && Ordinary(ops)
    ensures var d, log := Run(block, Reset(size), ops), RunLog(block, Reset(size), Log([], 0), ops);
            && log.Valid()
            && |d.mem| == size
            && (Recover(block, d.mem) == Found(d.rd, d.wr)
                <==> Skips(block, d.mem, 0, d.rd) && TailSeen(size, log.Queue(), d.wr))
  {
    hide Recover, Skips, TailSeen;
    ResetHolds(block, size);
    OrdinaryRunsHold(block, Reset(size), Log([], 0), ops);
    RunKeepsSize(block, Reset(size), ops);
    var d, log := Run(block, Reset(size), ops), RunLog(block, Reset(size), Log([], 0), ops);
    RecoverExactly(block, d.mem, d.rd, log.Queue(), d.wr);
  }

  lemma {:induction false} RunKeepsSize(block: BlockSize, d: Disk, ops: seq<Op>)
    ensures |Run(block, d, ops).mem| == |d.mem|
    decreases |ops|
  {
    hide Image, Zeroed, HeaderAt, Recover;
    if ops != [] {
      RunKeepsSize(block, d, ops[..|ops| - 1]);
    }
  }

  // ---- where recovery fails

  /** Behind a stored record a tail of one to eight bytes is never looked at: the write index
      comes back as the partition size, past the end of the last record. */
  lemma ShortTailMovesWriteIndex(block: BlockSize, d: Disk, q: seq<Record>)
    requires Holds(block, d, q) && q != [] && Skips(block, d.mem, 0, d.rd)
    requires d.wr < |d.mem| <= d.wr + HEADER
    ensures Recover(block, d.mem) == Found(d.rd, |d.mem|)
  {
    hide RecordAt, Intact, Span, Rem;
    LayoutEnd(block, d, q);
    ScanSkips(block, d.mem, 0, d.rd);
    ScanChain(block, d.mem, d.rd, q, d.wr, INVALID_INDEX);
    FirstHeaderKnown(block, d, q);
  }

  lemma FirstHeaderKnown(block: BlockSize, d: Disk, q: seq<Record>)
    requires Holds(block, d, q)
    ensures KnownMagic(HeaderAt(d.mem, 0).magic)
  {
    hide Rem, Span;
  }

  function FreeTimes(block: BlockSize, d: Disk, n: nat): Disk
    decreases n
  {
    if n == 0 then d else FreeTimes(block, AfterFree(block, d), n - 1)
  }

  /** The state a reader cannot leave: a peek fails for lack of room, a free changes nothing. */
  ghost predicate Stuck(block: BlockSize, d: Disk) {
    && d.rd != d.wr
    && (forall size: nat :: size < 0xFFFF ==> PeekResult(d, size) == NoMem)
    && AfterFree(block, d) == d
  }

  /** Exactly when a reader gets stuck: if eight bytes are left behind the last record at a reboot, then
      after all records are freed the area is stuck in front of the erased header slot. */
  lemma EightByteTailSticksExactly(block: BlockSize, d: Disk, q: seq<Record>)
    requires Holds(block, d, q) && q != [] && Skips(block, d.mem, 0, d.rd)
    ensures Stuck(block, FreeTimes(block, Boot(block, d.mem), |q|)) <==> |d.mem| == d.wr + HEADER
  {
    hide Skips, Recover, FreeTimes, Stuck;
    if d.wr < |d.mem| <= d.wr + HEADER {
      ShortTailMovesWriteIndex(block, d, q);
      LayoutChain(block, d, q);
      DrainTo(block, Boot(block, d.mem), q, d.wr);
      StuckAtTail(block, FreeTimes(block, Boot(block, d.mem), |q|), d.wr);
    } else {
      RecoverExactly(block, d.mem, d.rd, q, d.wr);
      FreeTimesHolds(block, d, q);
      EmptyIsNotStuck(block, FreeTimes(block, d, |q|));
    }
  }

  lemma {:induction false} FreeTimesHolds(block: BlockSize, d: Disk, q: seq<Record>)
    requires Holds(block, d, q)
    ensures Holds(block, FreeTimes(block, d, |q|), [])
    decreases |q|
  {
    hide Holds, AfterFree;
    if q != [] {
      FreeDrops(block, d, q);
      FreeTimesHolds(block, AfterFree(block, d), q[1..]);
    }
  }

  lemma EmptyIsNotStuck(block: BlockSize, d: Disk)
    requires Holds(block, d, [])
    ensures !Stuck(block, d)
  {
    hide Holds;
    LayoutEnd(block, d, []);
  }

  /** With the write index at the end of the partition, frees move through the records that are there. */
  lemma {:induction false} DrainSome(block: BlockSize, d: Disk, q: seq<Record>, end: nat, i: nat)
    requires d.rd <= |d.mem| && d.wr == |d.mem| && end < |d.mem| && Chain(block, d.mem, d.rd, q, end) && i <= |q|
    ensures var e := FreeTimes(block, d, i);
            && e.rd <= e.wr == |e.mem| == |d.mem|
            && Chain(block, e.mem, e.rd, q[i..], end)
            && Agree(e.mem, d.mem, end, |d.mem|)
    decreases i
  {
    hide Rem, RecordAt, AfterFree, Chain;
    if i > 0 {
      DrainStep(block, d, q, end);
      DrainSome(block, AfterFree(block, d), q[1..], end, i - 1);
      assert q[1..][i - 1..] == q[i..];
    } else {
      assert q[0..] == q;
    }
  }

  /** ... until none is left. */
  lemma DrainTo(block: BlockSize, d: Disk, q: seq<Record>, end: nat)
    requires d.rd <= |d.mem| && d.wr == |d.mem| && end < |d.mem| && Chain(block, d.mem, d.rd, q, end)
    ensures var e := FreeTimes(block, d, |q|);
            && e.rd == end && e.wr == |e.mem| == |d.mem|
            && Agree(e.mem, d.mem, end, |d.mem|)
  {
    hide FreeTimes, RecordAt;
    DrainSome(block, d, q, end, |q|);
    assert q[|q|..] == [];
  }

  /** After a reboot on a tail of one to eight bytes the reader still gets every record, in order, before
      it is stuck or finds the state invalid. */
  lemma ShortTailDelivers(block: BlockSize, d: Disk, q: seq<Record>, i: nat, size: nat)
    requires Holds(block, d, q) && Skips(block, d.mem, 0, d.rd) && d.wr < |d.mem| <= d.wr + HEADER && i <= |q|
    ensures q != [] ==>
              var e := FreeTimes(block, Boot(block, d.mem), i);
              if i == |q| then if |d.mem| == d.wr + HEADER then Stuck(block, e) else PeekResult(e, size) == InvalidState
              else
                && PeekResult(e, size) == (if size < |q[i]| then NoMem else Success)
                && (|q[i]| <= size ==> Head(e) == q[i])
  {
    hide Skips, Recover, FreeTimes, Stuck, PeekResult, Head, RecordAt, Holds;
    if q != [] {
      ShortTailMovesWriteIndex(block, d, q);
      LayoutChain(block, d, q);
      LayoutInside(block, d, q);
      DrainSome(block, Boot(block, d.mem), q, d.wr, i);
      var e := FreeTimes(block, Boot(block, d.mem), i);
      if i == |q| {
        assert q[i..] == [];
        TailErasedAgain(d.mem, e.mem, d.wr);
        StuckAtTail(block, e, d.wr);
        if |d.mem| < d.wr + HEADER {
          ShortTailPeek(e, d.wr, size);
        }
      } else {
        PeekOfChain(block, e, q[i..], d.wr, size);
      }
    }
  }

  lemma LayoutInside(block: BlockSize, d: Disk, q: seq<Record>)
    requires Holds(block, d, q)
    ensures d.rd <= d.wr <= |d.mem| && IsErased(d.mem, d.wr, |d.mem|)
  {
  }

  lemma TailErasedAgain(a: seq<byte>, b: seq<byte>, at: nat)
    requires at <= |a| && IsErased(a, at, |a|) && Agree(b, a, at, |a|)
    ensures IsErased(b, at, |b|)
  {
  }

  lemma ShortTailPeek(d: Disk, end: nat, size: nat)
    requires d.rd == end && d.wr == |d.mem| && end < |d.mem| < end + HEADER
    ensures PeekResult(d, size) == InvalidState
  {
  }

  lemma PeekOfChain(block: BlockSize, d: Disk, q: seq<Record>, end: nat, size: nat)
    requires d.wr == |d.mem| && d.rd <= |d.mem| && Chain(block, d.mem, d.rd, q, end)
    ensures q != [] ==>
              && PeekResult(d, size) == (if size < |q[0]| then NoMem else Success)
              && d.rd + HEADER <= |d.mem| && d.rd + HEADER + HeaderAt(d.mem, d.rd).size <= |d.mem|
              && Head(d) == q[0]
  {
    hide Rem, HeaderAt, Crc16, Body;
    if q != [] {
      RecordBytes(block, d.mem, d.rd, q[0]);
      SpanGrows(block, |q[0]|);
    }
  }

  lemma DrainStep(block: BlockSize, d: Disk, q: seq<Record>, end: nat)
    requires d.rd <= |d.mem| && d.wr == |d.mem| && end < |d.mem| && q != [] && Chain(block, d.mem, d.rd, q, end)
    ensures var d' := AfterFree(block, d);
            && d'.rd <= |d'.mem| && d'.wr == |d'.mem| == |d.mem|
            && Chain(block, d'.mem, d'.rd, q[1..], end)
            && Agree(d'.mem, d.mem, end, |d.mem|)
  {
    hide Rem, Crc16, Zeroed;
    var next := d.rd + Span(block, |q[0]|);
    ChainBounds(block, d.mem, next, q[1..], end);
    ChainFrame(block, d.mem, Zeroed(d.mem, d.rd), next, q[1..], end);
    assert AfterFree(block, d) == Disk(Zeroed(d.mem, d.rd), next, d.wr);
  }

  /** In front of fewer than eight bytes a peek finds the state invalid, which resets the area. */
  lemma StuckAtTail(block: BlockSize, d: Disk, end: nat)
    requires d.rd == end && d.wr == |d.mem| && end < |d.mem| <= end + HEADER && IsErased(d.mem, end, |d.mem|)
    ensures Stuck(block, d) <==> |d.mem| == end + HEADER
  {
    if |d.mem| == end + HEADER {
      assert HeaderAt(d.mem, d.rd) == Header(0xFFFF, 0xFFFF, 0xFFFF);
    } else {
      assert PeekResult(d, 0) == InvalidState;
    }
  }

  /** The next reboot ends it: behind the freed bytes nothing is found, and the area is erased. */
  lemma RebootEndsStuck(block: BlockSize, d: Disk)
    requires 0 < d.rd && d.wr == |d.mem| == d.rd + HEADER && Skips(block, d.mem, 0, d.rd)
    requires KnownMagic(HeaderAt(d.mem, 0).magic)
    ensures Boot(block, d.mem) == Reset(|d.mem|)
  {
    hide Skips, ScanFrom;
    SkipsToShortTail(block, d.mem, 0, d.rd);
  }

  /** On 24 bytes with 8-byte blocks: push eight bytes, reboot, free. The reader is stuck. */
  lemma EightBytesStick(r: Record)
    requires |r| == 8
    ensures Fits(8, Reset(24), 8)
    ensures Stuck(8, FreeTimes(8, Boot(8, Pushed(8, Reset(24), r).mem), 1))
  {
    hide Holds, Image, Stuck, FreeTimes, Boot;
    ResetHolds(8, 24);
    PushAppends(8, Reset(24), [], r);
    assert [] + [r] == [r];
    EightByteTailSticksExactly(8, Pushed(8, Reset(24), r), [r]);
  }

  /** A partition that holds eight bytes 0xFF in front of a record `r`. */
  lemma TwoRecords(size: nat, r: Record)
    requires 0 < |r| <= MAX_RECORD && 16 + Span(8, |r|) <= size
    ensures var d := AfterPush(8, AfterPush(8, Reset(size), Blank(8)), r);
            Holds(8, d, [Blank(8), r]) && d.rd == 0 && d.wr == 16 + Span(8, |r|)
  {
    hide Holds, Image;
    SpanGrows(8, |r|);
    ResetHolds(8, size);
    PushAppends(8, Reset(size), [], Blank(8));
    var d1 := Pushed(8, Reset(size), Blank(8));
    assert [] + [Blank(8)] == [Blank(8)] && [Blank(8)] + [r] == [Blank(8), r];
    PushAppends(8, d1, [Blank(8)], r);
  }

  /** A freed payload can end the scan early. With 8-byte blocks: push eight bytes 0xFF, push any
      record, free once; the remaining record is not found again. */
  lemma FreedPayloadEndsScan(size: nat, r: Record)
    requires 0 < |r| <= MAX_RECORD && 16 + Span(8, |r|) <= size
    ensures var d := AfterFree(8, AfterPush(8, AfterPush(8, Reset(size), Blank(8)), r));
            Holds(8, d, [r]) && Recover(8, d.mem) != Found(d.rd, d.wr)
  {
    hide AfterPush, Recover, Body, Chain, Rem, Skips, Span, RecordAt, HeaderAt, Dropped;
    var d := AfterPush(8, AfterPush(8, Reset(size), Blank(8)), r);
    var q := [Blank(8), r];
    TwoRecords(size, r);
    FreeDrops(8, d, q);
    OldestRecord(8, d, q);
    assert q[1..] == [r];
    SpanGrows(8, |r|);
    assert Span(8, 8) == 16 by { SpanOfBlock(); }
    FirstBytes(8, d.mem, 0, Blank(8));
    FreedBlankStopsScan(d.mem, 16);
    var d' := AfterFree(8, d);
    RecoverExactly(8, d'.mem, d'.rd, [r], d'.wr);
  }

  lemma SpanOfBlock()
    ensures Span(8, 8) == 16
  {
  }

  lemma FirstBytes(block: BlockSize, mem: seq<byte>, at: nat, r: Record)
    requires RecordAt(block, mem, at, r) && 2 <= |r|
    ensures at + 10 <= |mem| && mem[at + 8] == r[0] && mem[at + 9] == r[1]
  {
    RecordBytes(block, mem, at, r);
    assert mem[at + HEADER..at + HEADER + |r|][1] == r[1];
  }

  lemma FreedBlankStopsScan(mem: seq<byte>, rd: nat)
    requires 16 <= rd <= |mem| && mem[8] == mem[9] == 0xFF
    ensures !Skips(8, Zeroed(mem, 0), 0, rd)
  {
    ZeroedHeader(mem, 0);
    var m := Zeroed(mem, 0);
    assert HeaderAt(m, 8).magic == RECORD_UNUSED;
    assert !Skips(8, m, 8, rd);
  }
}
