/** Storing and flushing as interleaved steps: publishers push records at any time, one flush thread
    peeks, hands over and frees. Every interleaving is a sequence of acts. */
module PubSubSteps {
  import opened Division
  import opened Bytes
  import opened Crc
  import opened RecordFormat
  import opened Recovery
  import opened Fifo
  import FifoRuns
  import opened PushOnFlash
  import opened Errors

  const DESTINATION: nat := 4 // size of the destination field in front of the payload

  /** What the transport is given. The code passes the size of the whole record, destination
      included, so four bytes from behind the record follow the payload. */
  datatype Frame = Frame(destination: nat, bytes: seq<byte>)

  /** Why a record left the queue. */
  datatype Event =
    | HandedOver(frame: Frame, outcome: Ret) // the transport took it, or rejected it for good
    | TooLarge                               // does not fit a publish entry

  function Destination(record: seq<byte>): nat
    requires DESTINATION <= |record|
  {
    Word(record[0], record[1]) + Multiple(Word(record[2], record[3]), 0x1_0000)
  }

  /** The frame carries the record: its destination, then its payload, then the surplus. */
  ghost predicate Carries(frame: Frame, r: Record) {
    && |frame.bytes| == |r|
    && (DESTINATION <= |r| ==>
          frame.destination == Destination(r) && frame.bytes[..|r| - DESTINATION] == r[DESTINATION..])
  }

  /** Where the flush thread is. */
  datatype Flush =
    | Sleeping
    | Peeking
    | Peeked(record: Record)
    | Freeing(record: Record) // accepted or rejected for good by the transport
    | Skipping                // too large

  /** The area with a history of what was accepted into it, how much of that was freed, and why. */
  datatype Bus = Bus(d: Disk, accepted: seq<Record>, freed: nat, flush: Flush, events: seq<Event>)

  datatype Act =
    | Store(r: Record)                    // publish
    | Start                               // publish_flush
    | Peek                                // storage_peek
    | NotSubscribed                       // the destination is not in the table
    | Deliver(frame: Frame, outcome: Ret) // the transport's answer
    | Free                                // storage_free

  function AfterStore(block: BlockSize, s: Bus, r: Record): Bus {
    if r == [] || !Fits(block, s.d, |r|) then s
    else
      var (d', ret) := DevicePush(block, s.d, r);
      if ret == Success then s.(d := d', accepted := s.accepted + [r]) else s.(d := d')
  }

  function AfterPeek(s: Bus, entrySize: nat): Bus {
    match PeekResult(s.d, entrySize)
    case NotFound => s.(flush := Sleeping)
    case NoMem => s.(flush := Skipping)
    case Success => s.(flush := Peeked(Head(s.d)))
    case _ => s.(d := Reset(|s.d.mem|), flush := Sleeping)
  }

  /** The switch on the transport's answer; an answer it does not know leaves the record for another
      attempt. */
  function AfterDelivery(s: Bus, r: Record, frame: Frame, outcome: Ret): Bus {
    match outcome
    case Success => s.(flush := Freeing(r), events := s.events + [HandedOver(frame, outcome)])
    case InvalidParam => s.(flush := Freeing(r), events := s.events + [HandedOver(frame, outcome)])
    case InvalidState => s.(flush := Sleeping)
    case Busy => s.(flush := Sleeping)
    case NoMem => s.(flush := Sleeping)
    case _ => s.(flush := Peeking)
  }

  function AfterFreeing(block: BlockSize, s: Bus): Bus {
    var freed := if HeadValid(s.d) then s.freed + 1 else s.freed;
    var events := if s.flush.Skipping? && HeadValid(s.d) then s.events + [TooLarge] else s.events;
    s.(d := AfterFree(block, s.d), freed := freed, events := events, flush := Peeking)
  }

  /** An act that is not enabled changes nothing. */
  ghost function Next(block: BlockSize, entrySize: nat, s: Bus, a: Act): Bus {
    match a
    case Store(r) => AfterStore(block, s, r)
    case Start => if s.flush.Sleeping? then s.(flush := Peeking) else s
    case Peek => if s.flush.Peeking? then AfterPeek(s, entrySize) else s
    case NotSubscribed => if s.flush.Peeked? then s.(flush := Sleeping) else s
    case Deliver(frame, outcome) =>
      if s.flush.Peeked? && Carries(frame, s.flush.record) then AfterDelivery(s, s.flush.record, frame, outcome) else s
    case Free => if s.flush.Freeing? || s.flush.Skipping? then AfterFreeing(block, s) else s
  }

  ghost function Run(block: BlockSize, entrySize: nat, s: Bus, acts: seq<Act>): Bus {
    if acts == [] then s else Next(block, entrySize, Run(block, entrySize, s, acts[..|acts| - 1]), acts[|acts| - 1])
  }

  lemma RunOneMore(block: BlockSize, entrySize: nat, s: Bus, acts: seq<Act>, a: Act)
    ensures Run(block, entrySize, s, []) == s
    ensures Run(block, entrySize, s, acts + [a]) == Next(block, entrySize, Run(block, entrySize, s, acts), a)
  {
    hide Next;
    assert (acts + [a])[..|acts|] == acts;
  }

  /** The act is one that the thread is about to do, with these remotes subscribed. */
  ghost predicate Enabled(s: Bus, a: Act, table: seq<nat>) {
    match a
    case Store(_) => true
    case Start => s.flush.Sleeping?
    case Peek => s.flush.Peeking?
    case NotSubscribed =>
      s.flush.Peeked? && (DESTINATION <= |s.flush.record| ==> Destination(s.flush.record) !in table)
    case Deliver(frame, _) =>
      s.flush.Peeked? && Carries(frame, s.flush.record) && frame.destination in table
    case Free => s.flush.Freeing? || s.flush.Skipping?
  }

  ghost predicate AllEnabled(block: BlockSize, entrySize: nat, s: Bus, acts: seq<Act>, table: seq<nat>) {
    acts == [] || (
      && AllEnabled(block, entrySize, s, acts[..|acts| - 1], table)
      && Enabled(Run(block, entrySize, s, acts[..|acts| - 1]), acts[|acts| - 1], table))
  }

  /** How many acts are the thread's own, after it was started. */
  function Turns(acts: seq<Act>): nat {
    if acts == [] then 0
    else Turns(acts[..|acts| - 1]) + (if acts[|acts| - 1].Store? || acts[|acts| - 1].Start? then 0 else 1)
  }

  /** What the transport has answered. */
  function Answers(acts: seq<Act>): seq<Ret> {
    if acts == [] then []
    else Answers(acts[..|acts| - 1]) + (if acts[|acts| - 1].Deliver? then [acts[|acts| - 1].outcome] else [])
  }

  /** What publishers have stored. */
  function Records(acts: seq<Act>): seq<Record> {
    if acts == [] then []
    else Records(acts[..|acts| - 1]) + (if acts[|acts| - 1].Store? then [acts[|acts| - 1].r] else [])
  }

  lemma TraceOneMore(block: BlockSize, entrySize: nat, s: Bus, acts: seq<Act>, a: Act, table: seq<nat>)
    ensures AllEnabled(block, entrySize, s, acts + [a], table)
       <==> AllEnabled(block, entrySize, s, acts, table) && Enabled(Run(block, entrySize, s, acts), a, table)
    ensures Turns(acts + [a]) == Turns(acts) + (if a.Store? || a.Start? then 0 else 1)
    ensures Answers(acts + [a]) == Answers(acts) + (if a.Deliver? then [a.outcome] else [])
    ensures Records(acts + [a]) == Records(acts) + (if a.Store? then [a.r] else [])
  {
    hide Run, Enabled;
    assert (acts + [a])[..|acts + [a]| - 1] == acts;
  }

  // ---- what every step keeps

  ghost predicate Accounts(event: Event, r: Record, entrySize: nat) {
    match event
    case HandedOver(frame, outcome) =>
      |r| <= entrySize && Carries(frame, r) && (outcome == Success || outcome == InvalidParam)
    case TooLarge => |r| > entrySize
  }

  /** The events account for the records accepted first, in order. */
  ghost predicate Accounted(accepted: seq<Record>, events: seq<Event>, entrySize: nat) {
    |events| <= |accepted| && forall i :: 0 <= i < |events| ==> Accounts(events[i], accepted[i], entrySize)
  }

  /** The thread's record is the oldest one that is stored. */
  ghost predicate AtHead(s: Bus, q: seq<Record>, entrySize: nat) {
    match s.flush
    case Peeked(r) => q != [] && q[0] == r && |r| <= entrySize
    case Freeing(r) => q != [] && q[0] == r
    case Skipping => q != [] && |q[0]| > entrySize
    case _ => true
  }

  /** Nothing is lost: what was handed over or skipped, followed by what is stored, is what was
      accepted; a record that was handed over and not yet freed is counted once. */
  ghost predicate Safe(block: BlockSize, entrySize: nat, s: Bus) {
    && s.freed <= |s.accepted|
    && Laid(block, s.d.mem, s.d.rd, s.accepted[s.freed..], s.d.wr)
    && Accounted(s.accepted, s.events, entrySize)
    && |s.events| == s.freed + (if s.flush.Freeing? then 1 else 0)
    && AtHead(s, s.accepted[s.freed..], entrySize)
  }

  /** A store that reaches the flash is taken, or there is nothing that its refusal could erase. */
  predicate Kept(block: BlockSize, s: Bus, a: Act) {
    a.Store? && a.r != [] && Fits(block, s.d, |a.r|) ==> PushAccepted(block, s.d, a.r) || s.freed == |s.accepted|
  }

  /** Fewer records are stored than were accepted and not freed. */
  ghost predicate Lost(block: BlockSize, s: Bus, q: seq<Record>) {
    Holds(block, s.d, q) && s.freed + |q| < |s.accepted|
  }

  /** Whatever the tail holds: exactly when a store loses nothing. */
  lemma StoreKeepsExactly(block: BlockSize, entrySize: nat, s: Bus, r: Record)
    requires Safe(block, entrySize, s) && |r| <= MAX_RECORD
    ensures Safe(block, entrySize, AfterStore(block, s, r)) <==> Kept(block, s, Store(r))
    ensures !Kept(block, s, Store(r)) ==> Lost(block, AfterStore(block, s, r), [])
  {
    hide Laid, Pushed, Fits, PushAccepted, Accounts, Holds;
    var q := s.accepted[s.freed..];
    if r != [] && Fits(block, s.d, |r|) {
      if PushAccepted(block, s.d, r) {
        PushLaid(block, s.d, q, r);
        assert (s.accepted + [r])[s.freed..] == q + [r];
        assert q != [] ==> (q + [r])[0] == q[0];
      } else {
        ResetHoldsNothing(block, |s.d.mem|, q);
        ResetIsLoss(block, s, q);
      }
    }
  }

  lemma ResetIsLoss(block: BlockSize, s: Bus, q: seq<Record>)
    requires Laid(block, s.d.mem, s.d.rd, q, s.d.wr)
    ensures q != [] ==> Holds(block, Reset(|s.d.mem|), [])
  {
    hide RecordAt;
    ChainBounds(block, s.d.mem, s.d.rd, q, s.d.wr);
    if q != [] {
      ResetHolds(block, |s.d.mem|);
    }
  }

  /** What a peek answers about a queue, and the record it copies. */
  lemma PeekOfQueue(block: BlockSize, d: Disk, q: seq<Record>, entrySize: nat)
    requires Laid(block, d.mem, d.rd, q, d.wr)
    ensures PeekResult(d, entrySize) == (if q == [] then NotFound else if entrySize < |q[0]| then NoMem else Success)
    ensures q != [] ==> && HeadValid(d) && d.rd + HEADER + HeaderAt(d.mem, d.rd).size <= |d.mem|
                        && Head(d) == q[0]
  {
    hide Rem, Laid, HeaderAt, RecordAt, Crc16;
    HeadOfLaid(block, d, q);
    if q != [] {
      HeadRecord(block, d, q);
    }
  }

  lemma HeadRecord(block: BlockSize, d: Disk, q: seq<Record>)
    requires Laid(block, d.mem, d.rd, q, d.wr)
    ensures q != [] ==>
              && d.rd + HEADER + |q[0]| <= |d.mem|
              && HeaderAt(d.mem, d.rd) == Header(RECORD_VALID, |q[0]|, Crc16(CRC16_SEED, q[0]))
              && d.mem[d.rd + HEADER..d.rd + HEADER + |q[0]|] == q[0]
  {
    hide Rem, HeaderAt, Laid, Body, Crc16, Padding;
    if q != [] {
      HeadOfLaid(block, d, q);
      RecordBytes(block, d.mem, d.rd, q[0]);
      SpanGrows(block, |q[0]|);
    }
  }

  lemma PeekKeeps(block: BlockSize, entrySize: nat, s: Bus)
    requires Safe(block, entrySize, s)
    ensures s.flush.Peeking? ==> Safe(block, entrySize, AfterPeek(s, entrySize)) && AfterPeek(s, entrySize).d == s.d
  {
    hide Laid, Accounts, PeekResult, Head;
    PeekOfQueue(block, s.d, s.accepted[s.freed..], entrySize);
  }

  lemma DeliveryKeeps(block: BlockSize, entrySize: nat, s: Bus, frame: Frame, outcome: Ret)
    requires Safe(block, entrySize, s)
    ensures s.flush.Peeked? && Carries(frame, s.flush.record) ==>
              Safe(block, entrySize, AfterDelivery(s, s.flush.record, frame, outcome))
  {
    hide Laid, Carries;
    if s.flush.Peeked? {
      assert s.accepted[s.freed..][0] == s.accepted[s.freed];
    }
  }

  /** The record that is freed is the one that was peeked. */
  lemma FreeKeeps(block: BlockSize, entrySize: nat, s: Bus)
    requires Safe(block, entrySize, s)
    ensures s.flush.Freeing? || s.flush.Skipping? ==>
              && Safe(block, entrySize, AfterFreeing(block, s))
              && AfterFreeing(block, s).freed == s.freed + 1 && s.freed < |s.accepted|
    ensures s.flush.Freeing? ==> s.freed < |s.accepted| && s.accepted[s.freed] == s.flush.record
  {
    hide Laid, AfterFree, Carries, HeadValid;
    var q := s.accepted[s.freed..];
    PeekOfQueue(block, s.d, q, 0);
    FreeLaid(block, s.d, q);
    if q != [] {
      assert q[1..] == s.accepted[s.freed + 1..] && q[0] == s.accepted[s.freed];
    }
  }

  /** Every step loses nothing, except exactly a store that is refused while records are stored. */
  lemma StepIsSafeExactly(block: BlockSize, entrySize: nat, s: Bus, a: Act)
    requires Safe(block, entrySize, s) && (a.Store? ==> |a.r| <= MAX_RECORD)
    ensures Safe(block, entrySize, Next(block, entrySize, s, a)) <==> Kept(block, s, a)
    ensures !Kept(block, s, a) ==> Lost(block, Next(block, entrySize, s, a), [])
  {
    hide Laid, AfterStore, AfterPeek, AfterDelivery, AfterFreeing, Carries, Accounts, PushAccepted, Lost;
    match a
    case Store(r) => StoreKeepsExactly(block, entrySize, s, r);
    case Peek =>
      if s.flush.Peeking? {
        PeekKeeps(block, entrySize, s);
      }
    case Deliver(frame, outcome) =>
      if s.flush.Peeked? && Carries(frame, s.flush.record) {
        DeliveryKeeps(block, entrySize, s, frame, outcome);
      }
    case Free =>
      if s.flush.Freeing? || s.flush.Skipping? {
        FreeKeeps(block, entrySize, s);
      }
    case _ =>
  }

  /** What is lost stays lost. */
  lemma LossStays(block: BlockSize, entrySize: nat, s: Bus, q: seq<Record>, a: Act) returns (q': seq<Record>)
    requires Lost(block, s, q) && (a.Store? ==> |a.r| <= MAX_RECORD)
    ensures Lost(block, Next(block, entrySize, s, a), q')
  {
    hide Holds, AfterFree, HeadValid, Head, PeekResult, Carries, PushAccepted, Pushed, Fits;
    q' := q;
    match a
    case Store(r) =>
      if r != [] && Fits(block, s.d, |r|) {
        HoldsAccepted(block, s.d, q, r);
        PushAppends(block, s.d, q, r);
        q' := q + [r];
      }
    case Peek =>
      HoldsLaid(block, s.d, q);
      PeekOfQueue(block, s.d, q, entrySize);
    case Free =>
      HoldsLaid(block, s.d, q);
      PeekOfQueue(block, s.d, q, 0);
      FreeDrops(block, s.d, q);
      if (s.flush.Freeing? || s.flush.Skipping?) && q != [] {
        q' := q[1..];
      }
    case _ =>
  }

  lemma LossIsUnsafe(block: BlockSize, entrySize: nat, s: Bus, q: seq<Record>)
    requires Lost(block, s, q)
    ensures !Safe(block, entrySize, s)
  {
    hide Rem, RecordAt, Accounted, AtHead;
    if Safe(block, entrySize, s) {
      ChainUnique(block, s.d.mem, s.d.rd, q, s.accepted[s.freed..], s.d.wr);
    }
  }

  /** Every store of the run is taken, or meets an empty queue. */
  ghost predicate KeptRun(block: BlockSize, entrySize: nat, s: Bus, acts: seq<Act>) {
    acts == [] || (
      && KeptRun(block, entrySize, s, acts[..|acts| - 1])
      && Kept(block, Run(block, entrySize, s, acts[..|acts| - 1]), acts[|acts| - 1]))
  }

  ghost predicate StoresWithin(acts: seq<Act>, size: nat) {
    forall i :: 0 <= i < |acts| && acts[i].Store? ==> |acts[i].r| <= size
  }

  lemma {:induction false} SafeOrLost(block: BlockSize, entrySize: nat, s: Bus, acts: seq<Act>)
      returns (q: seq<Record>)
    requires Safe(block, entrySize, s) && StoresWithin(acts, MAX_RECORD)
    ensures var t := Run(block, entrySize, s, acts);
            if KeptRun(block, entrySize, s, acts) then Safe(block, entrySize, t) else Lost(block, t, q)
    decreases |acts|
  {
    hide Safe, Next, Lost, Kept;
    q := [];
    if acts != [] {
      var before := acts[..|acts| - 1];
      q := SafeOrLost(block, entrySize, s, before);
      if KeptRun(block, entrySize, s, before) {
        StepIsSafeExactly(block, entrySize, Run(block, entrySize, s, before), acts[|acts| - 1]);
        q := [];
      } else {
        q := LossStays(block, entrySize, Run(block, entrySize, s, before), q, acts[|acts| - 1]);
      }
    }
  }

  /** Over every interleaving of publishers and the flush thread, whatever an interrupted push has left
      behind the queue: nothing is lost, nothing is handed over out of order, and nothing is freed that
      was not handed over or too large, if and only if no store is refused while records are stored. */
  lemma RunsLoseNothingExactly(block: BlockSize, entrySize: nat, s: Bus, acts: seq<Act>)
    requires Safe(block, entrySize, s) && StoresWithin(acts, MAX_RECORD)
    ensures Safe(block, entrySize, Run(block, entrySize, s, acts)) <==> KeptRun(block, entrySize, s, acts)
  {
    hide Safe, Lost, Run, KeptRun;
    var q := SafeOrLost(block, entrySize, s, acts);
    if !KeptRun(block, entrySize, s, acts) {
      LossIsUnsafe(block, entrySize, Run(block, entrySize, s, acts), q);
    }
  }

  // ---- where the thread stops

  /** The four bytes of a destination, in numbers. */
  lemma DestinationInNumbers(r: seq<byte>)
    requires DESTINATION <= |r|
    ensures Destination(r) == Number(r[0], r[1]) + 0x1_0000 * Number(r[2], r[3])
  {
    WordIs(r[0], r[1]);
    WordIs(r[2], r[3]);
    MultipleIs(Word(r[2], r[3]), 0x1_0000);
  }

  /** Which step of the thread ends it: a peek that finds nothing or an invalid state, a destination nobody has
      subscribed for, and an answer that says come back later. */
  lemma StopsExactly(block: BlockSize, entrySize: nat, s: Bus, a: Act)
    requires !s.flush.Sleeping?
    ensures Next(block, entrySize, s, a).flush.Sleeping?
       <==> match a
            case Peek => s.flush.Peeking? && PeekResult(s.d, entrySize) in {NotFound, InvalidState}
            case NotSubscribed => s.flush.Peeked?
            case Deliver(frame, outcome) =>
              s.flush.Peeked? && Carries(frame, s.flush.record) && outcome in {InvalidState, Busy, NoMem}
            case _ => false
  {
    hide PeekResult, Head, Carries, AfterFree, HeadValid, DevicePush, Fits;
  }

  /** What a delivery leads to: the record is freed if it was taken or can never be sent, else it stays. */
  lemma DeliveryExactly(s: Bus, r: Record, frame: Frame, outcome: Ret)
    ensures var t := AfterDelivery(s, r, frame, outcome);
            && t.d == s.d && t.accepted == s.accepted && t.freed == s.freed
            && (t.flush == Freeing(r) <==> outcome in {Success, InvalidParam})
            && t.events == (if outcome in {Success, InvalidParam} then s.events + [HandedOver(frame, outcome)]
                            else s.events)
            && (outcome !in {Success, InvalidParam} ==> t.flush in {Sleeping, Peeking})
  {
  }

  /** A record that has to wait is the next one that is tried: after the thread has stopped in front of it, the
      next flush peeks it again. */
  lemma ComesBack(block: BlockSize, entrySize: nat, s: Bus, a: Act)
    requires Safe(block, entrySize, s)
    ensures s.flush.Peeked? && !a.Store? && Next(block, entrySize, s, a).flush.Sleeping? ==>
              Next(block, entrySize, Next(block, entrySize, Next(block, entrySize, s, a), Start), Peek) == s
  {
    hide Laid, PeekResult, Head, Carries, Accounted, AfterFree, HeadValid;
    if s.flush.Peeked? {
      PeekOfQueue(block, s.d, s.accepted[s.freed..], entrySize);
    }
  }

  // ---- with an erased tail

  /** The queue is stored in front of erased bytes. */
  ghost predicate Clean(block: BlockSize, s: Bus) {
    s.freed <= |s.accepted| && Holds(block, s.d, s.accepted[s.freed..])
  }

  lemma StepKeepsClean(block: BlockSize, entrySize: nat, s: Bus, a: Act)
    requires Safe(block, entrySize, s) && Clean(block, s) && (a.Store? ==> |a.r| <= MAX_RECORD)
    ensures Kept(block, s, a) && Clean(block, Next(block, entrySize, s, a))
    ensures a.Store? && a.r != [] && Fits(block, s.d, |a.r|) ==>
              Next(block, entrySize, s, a).accepted == s.accepted + [a.r]
  {
    hide Holds, Laid, AfterPeek, AfterFree, HeadValid, Carries, PushAccepted, Pushed, Fits, Accounted;
    var q := s.accepted[s.freed..];
    match a
    case Store(r) =>
      if r != [] && Fits(block, s.d, |r|) {
        HoldsAccepted(block, s.d, q, r);
        PushAppends(block, s.d, q, r);
        assert (s.accepted + [r])[s.freed..] == q + [r];
      }
    case Peek =>
      if s.flush.Peeking? {
        PeekKeeps(block, entrySize, s);
        PeekKeepsLog(s, entrySize);
      }
    case Free =>
      if s.flush.Freeing? || s.flush.Skipping? {
        FreeKeeps(block, entrySize, s);
        FreeDrops(block, s.d, q);
        assert q[1..] == s.accepted[s.freed + 1..];
      }
    case _ =>
  }

  lemma PeekKeepsLog(s: Bus, entrySize: nat)
    ensures var t := AfterPeek(s, entrySize); t.accepted == s.accepted && t.freed == s.freed && t.events == s.events
  {
  }

  /** From an erased tail every store that finds room is taken, and nothing is ever lost. */
  lemma {:induction false} CleanRunsLoseNothing(block: BlockSize, entrySize: nat, s: Bus, acts: seq<Act>)
    requires Safe(block, entrySize, s) && Clean(block, s) && StoresWithin(acts, MAX_RECORD)
    ensures KeptRun(block, entrySize, s, acts)
    ensures Safe(block, entrySize, Run(block, entrySize, s, acts)) && Clean(block, Run(block, entrySize, s, acts))
    decreases |acts|
  {
    hide Safe, Next, Clean, Kept;
    if acts != [] {
      var before := acts[..|acts| - 1];
      CleanRunsLoseNothing(block, entrySize, s, before);
      StepKeepsClean(block, entrySize, Run(block, entrySize, s, before), acts[|acts| - 1]);
      StepIsSafeExactly(block, entrySize, Run(block, entrySize, s, before), acts[|acts| - 1]);
    }
  }

  // ---- too large

  /** Everything that was accepted fits an entry. */
  ghost predicate AllFit(rs: seq<Record>, entrySize: nat) {
    forall i :: 0 <= i < |rs| ==> |rs[i]| <= entrySize
  }

  lemma {:induction false} AcceptedFit(block: BlockSize, entrySize: nat, s: Bus, acts: seq<Act>)
    requires AllFit(s.accepted, entrySize)
    requires StoresWithin(acts, entrySize)
    ensures AllFit(Run(block, entrySize, s, acts).accepted, entrySize)
    decreases |acts|
  {
    hide DevicePush, PeekResult, AfterFree, Carries, Fits, Head, HeadValid;
    if acts != [] {
      AcceptedFit(block, entrySize, s, acts[..|acts| - 1]);
    }
  }

  /** If what is stored at first and what publishers store fits an entry, nothing is skipped:
      every record that left the queue was handed over. */
  lemma NothingIsTooLarge(block: BlockSize, entrySize: nat, s: Bus, acts: seq<Act>)
    requires Safe(block, entrySize, s) && AllFit(s.accepted, entrySize) && entrySize <= MAX_RECORD
    requires StoresWithin(acts, entrySize) && KeptRun(block, entrySize, s, acts)
    ensures var t := Run(block, entrySize, s, acts);
            && !t.flush.Skipping?
            && |t.events| <= |t.accepted|
            && forall i :: 0 <= i < |t.events| ==> t.events[i].HandedOver? && Carries(t.events[i].frame, t.accepted[i])
  {
    RunsLoseNothingExactly(block, entrySize, s, acts);
    AcceptedFit(block, entrySize, s, acts);
    FitMeansHandedOver(block, entrySize, Run(block, entrySize, s, acts));
  }

  lemma FitMeansHandedOver(block: BlockSize, entrySize: nat, t: Bus)
    requires Safe(block, entrySize, t) && AllFit(t.accepted, entrySize)
    ensures !t.flush.Skipping? && |t.events| <= |t.accepted|
    ensures forall i :: 0 <= i < |t.events| ==> t.events[i].HandedOver? && Carries(t.events[i].frame, t.accepted[i])
  {
    hide Laid, Carries;
    forall i | 0 <= i < |t.events|
      ensures t.events[i].HandedOver? && Carries(t.events[i].frame, t.accepted[i])
    {
      assert Accounts(t.events[i], t.accepted[i], entrySize) && |t.accepted[i]| <= entrySize;
    }
    assert t.freed < |t.accepted| ==> t.accepted[t.freed..][0] == t.accepted[t.freed];
  }

  // ---- a stuck area

  function Spins(n: nat): seq<Act> {
    if n == 0 then [] else Spins(n - 1) + [Peek] + [Free]
  }

  /** In front of a stuck area the thread turns for ever without a pause: every peek fails for lack of
      room, every free finds nothing to free. */
  lemma {:induction false} StuckFlushSpins(block: BlockSize, entrySize: nat, s: Bus, n: nat)
    requires FifoRuns.Stuck(block, s.d) && s.flush.Peeking? && entrySize < 0xFFFF
    ensures Run(block, entrySize, s, Spins(n)) == s
    decreases n
  {
    if n > 0 {
      StuckFlushSpins(block, entrySize, s, n - 1);
      var acts := Spins(n - 1);
      assert (acts + [Peek])[..|acts|] == acts;
      assert (acts + [Peek] + [Free])[..|acts| + 1] == acts + [Peek];
      StuckTurn(block, entrySize, s);
      hide Next;
    }
  }

  lemma StuckTurn(block: BlockSize, entrySize: nat, s: Bus)
    requires FifoRuns.Stuck(block, s.d) && s.flush.Peeking? && entrySize < 0xFFFF
    ensures Next(block, entrySize, Next(block, entrySize, s, Peek), Free) == s
  {
    assert PeekResult(s.d, entrySize) == NoMem;
    StuckHead(block, s.d);
  }

  lemma StuckHead(block: BlockSize, d: Disk)
    requires FifoRuns.Stuck(block, d)
    ensures !HeadValid(d)
  {
    assert PeekResult(d, 0) == NoMem;
  }
}
