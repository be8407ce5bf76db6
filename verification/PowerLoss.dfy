/** Runs of pushes, frees and reboots in which power may fail anywhere inside a push or a free, with
    any payloads: each reboot finds the queue again exactly when it can, and records leave the queue
    only by a free or by a push that the flash refuses. */
module PowerLoss {
  import opened Bytes
  import opened RecordFormat
  import opened Recovery
  import opened Fifo
  import FifoRuns
  import opened PushOnFlash
  import opened Crash
  import opened TornHeaders

  datatype Act =
    | Push(r: Record)
    | Free
    | Reboot
    | CrashInPush(r: Record, k: nat)       // power fails after k bytes of the body
    | CrashInHeader(r: Record, j: nat)     // ... after j bytes of its header
    | CrashInReset(r: Record, erased: nat) // ... during the erase that follows a refused push
    | CrashInZeroing(j: nat)               // ... after j bytes of a free are zeroed
    | CrashInFree(erased: nat)             // ... after the header is zeroed, or during the erase that follows

  type Log = FifoRuns.Log

  predicate Performed(block: BlockSize, d: Disk, r: Record) { 0 < |r| && Fits(block, d, |r|) }

  predicate Refused(block: BlockSize, d: Disk, r: Record) {
    Performed(block, d, r) && !PushAccepted(block, d, r)
  }

  predicate InHeader(block: BlockSize, d: Disk, r: Record, j: nat) {
    Performed(block, d, r) && 1 <= j <= HEADER
  }

  /** What is missing of the header is there already: the push is done. */
  predicate Finished(block: BlockSize, d: Disk, r: Record, j: nat)
    requires InHeader(block, d, r, j)
  {
    SlotInside(block, d, |r|);
    RestThere(d, r, j)
  }

  /** One zero byte at the front of the partition makes the first header unknown. */
  predicate FrontByte(d: Disk, j: nat) { j == 1 && d.rd == 0 }

  /** The bytes when power returns, and the indices that would fit them. The device takes the blocks
      before the first one it refuses, so a body may be torn whether or not it would be taken whole. */
  function Interrupted(block: BlockSize, d: Disk, a: Act): Disk {
    match a
    case CrashInPush(r, k) =>
      if !Performed(block, d, r) || k > |Body(block, r)| then d
      else
        BodyFits(block, d, r);
        Disk(Torn(block, d, r, k), d.rd, d.wr)
    case CrashInHeader(r, j) =>
      if !InHeader(block, d, r, j) then d
      else Disk(HeaderTorn(block, d, r, j), d.rd, if Finished(block, d, r, j) then d.wr + Span(block, |r|) else d.wr)
    case CrashInZeroing(j) =>
      if !HeadValid(d) || !(1 <= j <= HEADER) then d
      else if FrontByte(d, j) then Disk(FreeTorn(d, j), 0, 0)
      else Disk(FreeTorn(d, j), Dropped(block, d).rd, d.wr)
    case CrashInReset(r, k) =>
      if !Refused(block, d, r) || k < HEADER || k > |d.mem| then d
      else Disk(Overlay(d.mem, 0, Blank(k)), 0, 0)
    case CrashInFree(k) =>
      if !HeadValid(d) then d
      else if Exhausted(Dropped(block, d)) && HEADER <= k <= |d.mem|
        then Disk(Overlay(Dropped(block, d).mem, 0, Blank(k)), 0, 0)
      else Dropped(block, d)
    case _ => d
  }

  function Step(block: BlockSize, d: Disk, a: Act): Disk {
    match a
    case Push(r) => if Performed(block, d, r) then DevicePush(block, d, r).0 else d
    case Free => AfterFree(block, d)
    case _ => Boot(block, Interrupted(block, d, a).mem)
  }

  ghost function OneFreed(log: Log): Log {
    if log.freed < |log.accepted| then log.(freed := log.freed + 1) else log
  }

  /** A refused push loses whatever is stored, and so does a free that stops behind its first byte at the
      front of the partition. */
  ghost function StepLog(block: BlockSize, d: Disk, log: Log, a: Act): Log {
    match a
    case Push(r) =>
      if !Performed(block, d, r) then log
      else if PushAccepted(block, d, r) then log.(accepted := log.accepted + [r])
      else log.(freed := |log.accepted|)
    case CrashInReset(r, k) =>
      if Refused(block, d, r) && HEADER <= k <= |d.mem| then log.(freed := |log.accepted|) else log
    case CrashInHeader(r, j) =>
      if InHeader(block, d, r, j) && Finished(block, d, r, j) then log.(accepted := log.accepted + [r]) else log
    case CrashInZeroing(j) =>
      if !HeadValid(d) || !(1 <= j <= HEADER) then log
      else if FrontByte(d, j) then log.(freed := |log.accepted|) else OneFreed(log)
    case CrashInPush(r, k) => log
    case Reboot => log
    case _ => OneFreed(log)
  }

  ghost predicate Invariant(block: BlockSize, d: Disk, log: Log) {
    log.Valid() && HEADER <= |d.mem| && Laid(block, d.mem, d.rd, log.Queue(), d.wr)
  }

  /** The scan walks over the freed bytes undisturbed and finds an unused header slot behind the queue, or
      nothing is stored and it finds nothing. */
  ghost predicate Recoverable(block: BlockSize, d: Disk, q: seq<Record>) {
    || (Skips(block, d.mem, 0, d.rd) && TailSeen(|d.mem|, q, d.wr) && UnusedAt(d.mem, d.wr))
    || (q == [] && Recover(block, d.mem) == Nothing)
  }

  /** What is asked of a step: records that the 16-bit size holds, frees of something that is stored or
      of nothing at all, and of each reboot that the bytes are recoverable. */
  ghost predicate Fair(block: BlockSize, d: Disk, log: Log, a: Act)
    requires log.Valid()
  {
    match a
    case Push(r) => |r| <= MAX_RECORD
    case Free => FreesStored(d, log)
    case _ =>
      var log' := StepLog(block, d, log, a);
      && Sound(d, log, a)
      && log'.Valid() && Recoverable(block, Interrupted(block, d, a), log'.Queue())
  }

  /** The same for what is interrupted. */
  ghost predicate Sound(d: Disk, log: Log, a: Act) {
    match a
    case CrashInHeader(r, _) => |r| <= MAX_RECORD
    case CrashInFree(_) => FreesStored(d, log)
    case CrashInZeroing(_) => FreesStored(d, log)
    case _ => true
  }

  /** Every client frees only after a successful peek. */
  ghost predicate FreesStored(d: Disk, log: Log) { log.freed < |log.accepted| || !HeadValid(d) }

  // ---- one step

  /** A boot finds the queue: with the same indices, or erased if nothing was stored. */
  lemma BootKeeps(block: BlockSize, d: Disk, q: seq<Record>)
    requires HEADER <= |d.mem| && Laid(block, d.mem, d.rd, q, d.wr) && Recoverable(block, d, q)
    ensures var b := Boot(block, d.mem); Laid(block, b.mem, b.rd, q, b.wr) && |b.mem| == |d.mem|
    ensures Recover(block, d.mem) != Nothing ==> Boot(block, d.mem) == d
  {
    hide Laid, Skips, Recover, TailSeen, UnusedAt;
    RecoverExactly(block, d.mem, d.rd, q, d.wr);
    ResetLaid(block, |d.mem|);
  }

  /** Whenever power fails, the bytes are laid out as the queue before or after the step. */
  lemma InterruptedLaid(block: BlockSize, d: Disk, log: Log, a: Act)
    requires Invariant(block, d, log) && !a.Push? && !a.Free? && Sound(d, log, a)
    ensures var i, log' := Interrupted(block, d, a), StepLog(block, d, log, a);
            log'.Valid() && |i.mem| == |d.mem| && Laid(block, i.mem, i.rd, log'.Queue(), i.wr)
  {
    hide Laid, Interrupted, StepLog, Invariant, Sound;
    InterruptedPushLaid(block, d, log, a);
    InterruptedFreeLaid(block, d, log, a);
  }

  lemma InterruptedPushLaid(block: BlockSize, d: Disk, log: Log, a: Act)
    requires Invariant(block, d, log) && Sound(d, log, a)
    ensures var i, log' := Interrupted(block, d, a), StepLog(block, d, log, a);
            a.CrashInPush? || a.CrashInHeader? || a.CrashInReset? || a.Reboot? ==>
              log'.Valid() && |i.mem| == |d.mem| && Laid(block, i.mem, i.rd, log'.Queue(), i.wr)
  {
    hide Laid, Span, PushAccepted, Body, Torn, HeaderTorn, Fits, Finished, RestThere;
    match a
    case CrashInPush(r, k) =>
      if Performed(block, d, r) && k <= |Body(block, r)| {
        TornLaid(block, d, log.Queue(), r, k);
      }
    case CrashInHeader(r, j) =>
      if InHeader(block, d, r, j) {
        HeaderTornLaid(block, d, log.Queue(), r, j);
        FinishedMeans(block, d, r, j);
        assert (log.accepted + [r])[log.freed..] == log.Queue() + [r];
      }
    case CrashInReset(r, k) =>
      if Refused(block, d, r) && HEADER <= k <= |d.mem| {
        ErasedFrontLaid(block, Overlay(d.mem, 0, Blank(k)));
        assert log.accepted[|log.accepted|..] == [];
      }
    case _ =>
  }

  lemma InterruptedFreeLaid(block: BlockSize, d: Disk, log: Log, a: Act)
    requires Invariant(block, d, log) && Sound(d, log, a)
    ensures var i, log' := Interrupted(block, d, a), StepLog(block, d, log, a);
            a.CrashInFree? || a.CrashInZeroing? ==>
              log'.Valid() && |i.mem| == |d.mem| && Laid(block, i.mem, i.rd, log'.Queue(), i.wr)
  {
    hide Laid, Dropped, HeadValid, Span, Exhausted, RecordAt, FreeTorn;
    HeadOfLaid(block, d, log.Queue());
    match a
    case CrashInZeroing(j) =>
      if log.Queue() != [] && 1 <= j <= HEADER {
        ZeroingLaid(block, d, log.Queue(), j);
        assert log.accepted[log.freed + 1..] == log.Queue()[1..];
        assert log.accepted[|log.accepted|..] == [];
      }
    case CrashInFree(k) =>
      if log.Queue() != [] {
        DropLaid(block, d, log.Queue());
        assert log.accepted[log.freed + 1..] == log.Queue()[1..];
        if Exhausted(Dropped(block, d)) && HEADER <= k <= |d.mem| {
          ExhaustedIsEmpty(block, Dropped(block, d), log.Queue()[1..]);
          ErasedFrontLaid(block, Overlay(Dropped(block, d).mem, 0, Blank(k)));
        }
      }
    case _ =>
  }

  lemma FinishedMeans(block: BlockSize, d: Disk, r: Record, j: nat)
    requires InHeader(block, d, r, j)
    ensures d.wr + HEADER <= |d.mem| && (Finished(block, d, r, j) <==> RestThere(d, r, j))
  {
    SlotInside(block, d, |r|);
  }

  lemma ZeroingLaid(block: BlockSize, d: Disk, q: seq<Record>, j: nat)
    requires Laid(block, d.mem, d.rd, q, d.wr) && 1 <= j <= HEADER
    ensures q != [] ==>
              && d.rd + HEADER <= |d.mem|
              && (if FrontByte(d, j) then Laid(block, FreeTorn(d, j), 0, [], 0)
                  else Laid(block, FreeTorn(d, j), Dropped(block, d).rd, q[1..], d.wr))
  {
    hide Chain, RecordAt, FreeTorn, HeaderAt, Rem;
    if q != [] {
      HeadOfLaid(block, d, q);
      HeadInside(d);
      if !FrontByte(d, j) {
        FreeTornLaid(block, d, q, j);
      } else {
        NothingLaid(block, FreeTorn(d, j));
      }
    }
  }

  lemma NothingLaid(block: BlockSize, mem: seq<byte>)
    ensures Laid(block, mem, 0, [], 0)
  {
  }

  lemma ErasedFrontLaid(block: BlockSize, mem: seq<byte>)
    requires HEADER <= |mem| && IsErased(mem, 0, HEADER)
    ensures Laid(block, mem, 0, [], 0) && UnusedAt(mem, 0)
  {
    assert HeaderAt(mem, 0).magic == RECORD_UNUSED;
  }

  lemma StepKeeps(block: BlockSize, d: Disk, log: Log, a: Act)
    requires Invariant(block, d, log) && Fair(block, d, log, a)
    ensures Invariant(block, Step(block, d, a), StepLog(block, d, log, a))
    ensures |Step(block, d, a).mem| == |d.mem|
  {
    hide Laid, Dropped, Span, PushAccepted, Body, Exhausted, Boot, Interrupted, Recoverable, Pushed;
    hide HeadValid, Fits;
    match a
    case Push(r) =>
      if Performed(block, d, r) {
        if PushAccepted(block, d, r) {
          PushLaid(block, d, log.Queue(), r);
          assert (log.accepted + [r])[log.freed..] == log.Queue() + [r];
        } else {
          ResetLaid(block, |d.mem|);
          assert log.accepted[|log.accepted|..] == [];
        }
      }
    case Free =>
      if log.Queue() != [] {
        FreeLaid(block, d, log.Queue());
        assert log.accepted[log.freed + 1..] == log.Queue()[1..];
      }
    case _ =>
      InterruptedLaid(block, d, log, a);
      BootKeeps(block, Interrupted(block, d, a), StepLog(block, d, log, a).Queue());
  }

  // ---- runs

  function Run(block: BlockSize, d: Disk, acts: seq<Act>): Disk {
    if acts == [] then d else Step(block, Run(block, d, acts[..|acts| - 1]), acts[|acts| - 1])
  }

  ghost function RunLog(block: BlockSize, d: Disk, log: Log, acts: seq<Act>): Log {
    if acts == [] then log
    else
      var before := acts[..|acts| - 1];
      StepLog(block, Run(block, d, before), RunLog(block, d, log, before), acts[|acts| - 1])
  }

  ghost predicate FairRun(block: BlockSize, d: Disk, log: Log, acts: seq<Act>) {
    acts == [] || (
      var before := acts[..|acts| - 1];
      var log' := RunLog(block, d, log, before);
      FairRun(block, d, log, before) && log'.Valid() && Fair(block, Run(block, d, before), log', acts[|acts| - 1]))
  }

  /** Over every run, power losses included and whatever the payloads are: the partition holds what
      was accepted, minus the oldest records that were freed and minus all that a refused push lost. */
  lemma {:induction false} RunsSurvivePowerLoss(block: BlockSize, d: Disk, log: Log, acts: seq<Act>)
    requires Invariant(block, d, log) && FairRun(block, d, log, acts)
    ensures Invariant(block, Run(block, d, acts), RunLog(block, d, log, acts))
    ensures |Run(block, d, acts).mem| == |d.mem|
    decreases |acts|
  {
    hide Invariant, Fair, Step, StepLog;
    if acts != [] {
      var before := acts[..|acts| - 1];
      RunsSurvivePowerLoss(block, d, log, before);
      StepKeeps(block, Run(block, d, before), RunLog(block, d, log, before), acts[|acts| - 1]);
    }
  }

  /** At the end of any such run: a reboot finds both indices again if and only if the freed bytes are
      walked over undisturbed, the tail is one the scan looks at, and it begins with an unused header
      slot. */
  lemma RunsRecoverExactly(block: BlockSize, size: nat, acts: seq<Act>)
    requires HEADER <= size && FairRun(block, Reset(size), FifoRuns.Log([], 0), acts)
    ensures var log0 := FifoRuns.Log([], 0);
            var d, log := Run(block, Reset(size), acts), RunLog(block, Reset(size), log0, acts);
            && log.Valid() && Laid(block, d.mem, d.rd, log.Queue(), d.wr)
            && (Recover(block, d.mem) == Found(d.rd, d.wr)
                <==> Skips(block, d.mem, 0, d.rd) && TailSeen(size, log.Queue(), d.wr) && UnusedAt(d.mem, d.wr))
  {
    hide Run, RunLog, FairRun, Laid, Skips, Recover, TailSeen, UnusedAt;
    ResetLaid(block, size);
    var log0 := FifoRuns.Log([], 0);
    RunsSurvivePowerLoss(block, Reset(size), log0, acts);
    var d, log := Run(block, Reset(size), acts), RunLog(block, Reset(size), log0, acts);
    RecoverExactly(block, d.mem, d.rd, log.Queue(), d.wr);
  }
}
