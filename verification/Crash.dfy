/** Power loss inside a push or a free: what the next `storage_init` finds. */
module Crash {
  import opened Bytes
  import opened RecordFormat
  import opened Recovery
  import opened Fifo
  import opened FifoRuns
  import opened FlashDevice
  import opened PushOnFlash
  import opened Errors

  /** Images between the flash writes of a push: some prefix of the body, then the header. */
  ghost predicate PushImage(block: BlockSize, d: Disk, r: Record, mem: seq<byte>)
    requires Fits(block, d, |r|)
  {
    (exists k: nat :: k <= |Body(block, r)| && mem == Torn(block, d, r, k)) || mem == Pushed(block, d, r).mem
  }

  /** The first `k` body bytes are programmed, the header is not. */
  function Torn(block: BlockSize, d: Disk, r: Record, k: nat): seq<byte>
    requires Fits(block, d, |r|) && k <= |Body(block, r)|
  {
    Overlay(d.mem, d.wr + HEADER, Body(block, r)[..k])
  }

  /** Images inside a free: before the header is zeroed, after it, and while the exhausted area is
      erased from the front on. */
  ghost predicate FreeImage(block: BlockSize, d: Disk, mem: seq<byte>)
    requires d.rd + HEADER <= |d.mem|
  {
    var d' := Dropped(block, d);
    || mem == d.mem
    || mem == d'.mem
    || (Exhausted(d') && exists k: nat :: HEADER <= k <= |d.mem| && mem == Overlay(d'.mem, 0, Blank(k)))
  }

  /** What a reader gets out of an area after `storage_init`. */
  ghost predicate Recovers(block: BlockSize, mem: seq<byte>, q: seq<Record>) {
    var b := Boot(block, mem);
    b.rd <= |b.mem| && Chain(block, b.mem, b.rd, q, b.wr)
  }

  /** Bytes that hold the queue `q` behind quiet freed bytes, whatever lies behind the unused
      header slot. */
  ghost predicate QuietLayout(block: BlockSize, mem: seq<byte>, rd: nat, q: seq<Record>, wr: nat) {
    HEADER <= |mem| && Layout(block, mem, rd, q, wr) && Quiet(block, mem, rd)
  }

  /** Between nine bytes and nothing behind quiet bytes the scan comes back empty-handed. */
  lemma {:induction false} QuietToTheEnd(block: BlockSize, mem: seq<byte>, at: nat, rd: nat)
    requires at < rd <= |mem| <= rd + HEADER && at + HEADER <= |mem| && Quiet(block, mem, rd)
    requires Aligned(block, at) && Aligned(block, rd)
    ensures ScanFrom(block, mem, at, INVALID_INDEX) == Indices(INVALID_INDEX, INVALID_INDEX)
    decreases rd - at
  {
    hide Rem, ChunkedCrc;
    assert QuietAt(mem, at, rd);
    LiveBytes(mem[at], mem[at + 1]);
    NextBoundary(block, at, rd);
    if at + block + HEADER < |mem| {
      QuietToTheEnd(block, mem, at + block, rd);
    }
  }

  /** An empty queue is recovered as an empty queue, whatever the tail looks like. */
  lemma EmptyRecovers(block: BlockSize, mem: seq<byte>, rd: nat)
    requires QuietLayout(block, mem, rd, [], rd) && 0 < rd
    ensures Recovers(block, mem, [])
  {
    hide Rem, Skips, Quiet, ScanFrom;
    AlignedAdd(block, rd, rd);
    if rd + HEADER < |mem| {
      HeaderAligned(block);
      QuietSkips(block, mem, 0, rd);
      RecoverExactly(block, mem, rd, [], rd);
    } else {
      HeaderAligned(block);
      QuietToTheEnd(block, mem, 0, rd);
    }
  }

  lemma FullRecovers(block: BlockSize, mem: seq<byte>, rd: nat, q: seq<Record>, wr: nat)
    requires QuietLayout(block, mem, rd, q, wr) && TailSeen(|mem|, q, wr)
    ensures Recover(block, mem) == Found(rd, wr) && Recovers(block, mem, q)
  {
    hide Rem, Skips, Quiet, Recover, RecordAt, TailSeen;
    ChainBounds(block, mem, rd, q, wr);
    TailRoom(|mem|, q, rd, wr);
    HeaderAligned(block);
    QuietSkips(block, mem, 0, rd);
    RecoverExactly(block, mem, rd, q, wr);
  }

  lemma TailRoom(size: nat, q: seq<Record>, rd: nat, wr: nat)
    requires TailSeen(size, q, wr) && rd <= wr <= size && (q != [] ==> rd + HEADER < wr) && (q == [] ==> rd == wr)
    ensures rd + HEADER <= size
  {
  }

  /** The body of a push is invisible until its header is written. */
  lemma TornIsInvisible(block: BlockSize, d: Disk, log: Log, r: Record, k: nat)
    requires Invariant(block, d, log) && 0 < |r| && Fits(block, d, |r|) && k <= |Body(block, r)|
    ensures QuietLayout(block, Torn(block, d, r, k), d.rd, log.Queue(), d.wr)
  {
    hide Rem, Body, HeaderAt, Chain, Span, QuietRecord, AllQuiet;
    var m := Torn(block, d, r, k);
    SpanGrows(block, |r|);
    LayoutEnd(block, d, log.Queue());
    ChainFrame(block, d.mem, m, d.rd, log.Queue(), d.wr);
    HeaderFrame(d.mem, m, d.wr);
    if 0 < d.rd {
      HeaderFrame(d.mem, m, 0);
    }
    forall p: nat | p < d.rd && Aligned(block, p)
      ensures QuietAt(m, p, d.rd)
    {
      assert QuietAt(d.mem, p, d.rd);
    }
  }

  /** A push interrupted anywhere is recovered as not having happened or as done. Only the finished
      push asks for a tail: one to eight bytes left behind it are not seen. */
  lemma PushIsAtomic(block: BlockSize, d: Disk, log: Log, r: Record, mem: seq<byte>)
    requires Invariant(block, d, log) && 0 < |r| <= MAX_RECORD
    requires Fits(block, d, |r|) && PushImage(block, d, r, mem)
    requires mem == Pushed(block, d, r).mem ==> TailSeen(|d.mem|, log.Queue() + [r], d.wr + Span(block, |r|))
    ensures Recovers(block, mem, if mem == Pushed(block, d, r).mem then log.Queue() + [r] else log.Queue())
  {
    hide Rem, Body, HeaderAt, Chain, Span, QuietRecord, AllQuiet, Quiet, Recovers, Recover, Layout, Pushed;
    if mem == Pushed(block, d, r).mem {
      PushedLayout(block, d, log, r);
      FullRecovers(block, mem, d.rd, log.Queue() + [r], d.wr + Span(block, |r|));
    } else {
      var k: nat :| k <= |Body(block, r)| && mem == Torn(block, d, r, k);
      TornIsInvisible(block, d, log, r, k);
      SpanGrows(block, |r|);
      FullRecovers(block, mem, d.rd, log.Queue(), d.wr);
    }
  }

  /** The record that is pushed is not among the freed bytes: it need not be quiet. */
  lemma PushedLayout(block: BlockSize, d: Disk, log: Log, r: Record)
    requires Invariant(block, d, log) && 0 < |r| <= MAX_RECORD && Fits(block, d, |r|)
    ensures QuietLayout(block, Pushed(block, d, r).mem, d.rd, log.Queue() + [r], d.wr + Span(block, |r|))
    ensures |Pushed(block, d, r).mem| == |d.mem|
  {
    hide Rem, Image, HeaderAt, Chain, Span, QuietRecord, AllQuiet;
    PushAppends(block, d, log.Queue(), r);
    LayoutEnd(block, d, log.Queue());
    var m := Pushed(block, d, r).mem;
    forall p: nat | p < d.rd && Aligned(block, p)
      ensures QuietAt(m, p, d.rd)
    {
      assert QuietAt(d.mem, p, d.rd);
    }
  }

  lemma DroppedLayout(block: BlockSize, d: Disk, log: Log)
    requires Invariant(block, d, log) && log.Queue() != []
    ensures d.rd + HEADER <= |d.mem|
    ensures var d' := Dropped(block, d);
            0 < d'.rd && d'.wr == d.wr && |d'.mem| == |d.mem|
            && QuietLayout(block, d'.mem, d'.rd, log.Queue()[1..], d'.wr)
            && (log.Queue()[1..] == [] <==> d'.rd == d'.wr)
            && d'.rd <= d'.wr
  {
    hide Rem, HeaderAt, Chain, QuietRecord, Quiet, RecordAt, Dropped, Zeroed;
    var q := log.Queue();
    OldestRecord(block, d, q);
    DropKeepsLayout(block, d, q);
    DropKeepsQuiet(block, d.mem, d.rd, q[0]);
    var d' := Dropped(block, d);
    ChainBounds(block, d'.mem, d'.rd, q[1..], d'.wr);
  }

  /** A free interrupted anywhere, the erase of an exhausted area included, is recovered as not
      having happened or as done. */
  lemma FreeIsAtomic(block: BlockSize, d: Disk, log: Log, mem: seq<byte>)
    requires Invariant(block, d, log) && log.Queue() != [] && TailSeen(|d.mem|, log.Queue(), d.wr)
    requires d.rd + HEADER <= |d.mem| && FreeImage(block, d, mem)
    ensures Recovers(block, mem, if mem == d.mem then log.Queue() else log.Queue()[1..])
  {
    hide Rem, HeaderAt, Chain, QuietRecord, Quiet, AllQuiet, RecordAt, Dropped, Recovers, Recover, Layout;
    var q := log.Queue();
    DroppedLayout(block, d, log);
    var d' := Dropped(block, d);
    if mem == d.mem {
      FullRecovers(block, mem, d.rd, q, d.wr);
    } else if mem == d'.mem {
      if q[1..] == [] {
        EmptyRecovers(block, mem, d'.rd);
      } else {
        FullRecovers(block, mem, d'.rd, q[1..], d'.wr);
      }
    } else {
      ErasedFrontRecovers(block, mem);
    }
  }

  lemma ErasedFrontRecovers(block: BlockSize, mem: seq<byte>)
    requires HEADER <= |mem| && IsErased(mem, 0, HEADER)
    ensures Recovers(block, mem, [])
  {
    assert HeaderAt(mem, 0).magic == RECORD_UNUSED;
    assert !Intact(mem, 0);
  }

  // ---- the next push

  /** No block of `data` meets programmed bytes among the first `k` of `torn`, unless it is all zeros. */
  ghost predicate Overwrites(block: BlockSize, torn: seq<byte>, k: nat, data: seq<byte>)
    requires k <= |torn|
  {
    forall p: nat :: p + block <= |data| && Aligned(block, p) ==>
      ErasedWithin(torn, k, p, block) || ZeroBlock(data, p, block)
  }

  predicate ErasedWithin(torn: seq<byte>, k: nat, p: nat, len: nat)
    requires k <= |torn|
  {
    forall i :: p <= i < p + len && i < k ==> torn[i] == ERASED
  }

  predicate ZeroBlock(data: seq<byte>, p: nat, len: nat)
    requires p + len <= |data|
  {
    forall i :: p <= i < p + len ==> data[i] == 0
  }

  /** Exactly what the device takes over the bytes that an interrupted push has left. */
  lemma TornProgrammable(block: BlockSize, d: Disk, q: seq<Record>, r: Record, k: nat, data: seq<byte>)
    requires Holds(block, d, q) && Fits(block, d, |r|) && k <= |Body(block, r)|
    requires Aligned(block, |data|) && d.wr + HEADER + |data| <= |d.mem|
    ensures Programmable(block, Torn(block, d, r, k), d.wr + HEADER, data)
       <==> Overwrites(block, Body(block, r), k, data)
  {
    hide Body, Rem, Holds, Aligned, BlockProgrammable, ErasedWithin, ZeroBlock, Overlay;
    LayoutEnd(block, d, q);
    TailErased(block, d, q);
    BodyAligned(block, r);
    BodyFits(block, d, r);
    AlignedAdd(block, d.wr, HEADER);
    var mem, off, body := Torn(block, d, r, k), d.wr + HEADER, Body(block, r);
    forall p: nat | p + block <= |data|
      ensures BlockProgrammable(mem, off, data, p, block)
         <==> ErasedWithin(body, k, p, block) || ZeroBlock(data, p, block)
    {
      TornBlock(d.mem, off, body, k, data, p, block);
    }
  }

  lemma TornBlock(mem: seq<byte>, off: nat, body: seq<byte>, k: nat, data: seq<byte>, p: nat, len: nat)
    requires off + |data| <= |mem| && k <= |body| && off + |body| <= |mem| && IsErased(mem, off, |mem|)
    requires p + len <= |data|
    ensures BlockProgrammable(Overlay(mem, off, body[..k]), off, data, p, len)
       <==> ErasedWithin(body, k, p, len) || ZeroBlock(data, p, len)
  {
    var m := Overlay(mem, off, body[..k]);
    assert IsErased(m, off + p, off + p + len) <==> ErasedWithin(body, k, p, len) by {
      if IsErased(m, off + p, off + p + len) {
        forall i | p <= i < p + len && i < k ensures body[i] == ERASED {
          assert m[off + i] == body[..k][i];
        }
      }
    }
  }

  /** Where the next header slot will be, the interrupted body has ended or reads as unused. */
  ghost predicate SlotClean(block: BlockSize, d: Disk, r: Record, k: nat, next: Record)
    requires k <= |Body(block, r)|
  {
    var p := |Body(block, next)|;
    d.wr + Span(block, |next|) + HEADER <= |d.mem| ==>
      (p < k ==> Body(block, r)[p] == 0xFF) && (p + 1 < k ==> Body(block, r)[p + 1] == 0xFF)
  }

  /** Exactly when the next push succeeds: otherwise it is refused, the area is reset and the whole
      queue is lost. What a success leaves is the queue with the record appended, and a reboot finds
      that queue again only if nothing of the interrupted record shows where the next header will be. */
  lemma TornPushExactly(block: BlockSize, d: Disk, q: seq<Record>, r: Record, k: nat, next: Record)
    requires Holds(block, d, q) && Fits(block, d, |r|) && Fits(block, d, |next|) && k <= |Body(block, r)|
    ensures var t := Disk(Torn(block, d, r, k), d.rd, d.wr);
            DevicePush(block, t, next)
            == if Overwrites(block, Body(block, r), k, Body(block, next)) then (Pushed(block, t, next), Success)
               else (Reset(|d.mem|), Internal)
    ensures 0 < |next| <= MAX_RECORD && Overwrites(block, Body(block, r), k, Body(block, next)) ==>
              var p := Pushed(block, Disk(Torn(block, d, r, k), d.rd, d.wr), next);
              && Laid(block, p.mem, p.rd, q + [next], p.wr)
              && (Recover(block, p.mem) == Found(p.rd, p.wr)
                  <==> && Skips(block, p.mem, 0, p.rd)
                       && TailSeen(|d.mem|, q + [next], p.wr)
                       && SlotClean(block, d, r, k, next))
  {
    TornAccepted(block, d, q, r, k, next);
    hide PushAccepted, Body, Rem, Overwrites, Holds, Pushed, Span, Overlay, Reset;
    if 0 < |next| <= MAX_RECORD && Overwrites(block, Body(block, r), k, Body(block, next)) {
      TornPushFound(block, d, q, r, k, next);
    }
  }

  lemma TornPushFound(block: BlockSize, d: Disk, q: seq<Record>, r: Record, k: nat, next: Record)
    requires Holds(block, d, q) && Fits(block, d, |r|) && Fits(block, d, |next|) && k <= |Body(block, r)|
    requires 0 < |next| <= MAX_RECORD
    ensures var p := Pushed(block, Disk(Torn(block, d, r, k), d.rd, d.wr), next);
            && Laid(block, p.mem, p.rd, q + [next], p.wr)
            && (Recover(block, p.mem) == Found(p.rd, p.wr)
                <==> && Skips(block, p.mem, 0, p.rd)
                     && TailSeen(|d.mem|, q + [next], p.wr)
                     && SlotClean(block, d, r, k, next))
  {
    hide Laid, UnusedAt, Recover, Skips, TailSeen, Image, Body, Rem, SlotClean, Chain, Torn, Padding;
    var t := Disk(Torn(block, d, r, k), d.rd, d.wr);
    TornLaid(block, d, q, r, k);
    PushRecoversExactly(block, t, q, next);
    SlotOverTorn(block, d, q, r, k, next);
  }

  lemma TornLaid(block: BlockSize, d: Disk, q: seq<Record>, r: Record, k: nat)
    requires Laid(block, d.mem, d.rd, q, d.wr) && Fits(block, d, |r|) && k <= |Body(block, r)|
    ensures |Torn(block, d, r, k)| == |d.mem| && Laid(block, Torn(block, d, r, k), d.rd, q, d.wr)
  {
    hide Rem, Body, HeaderAt, Chain, Span, Fits;
    BodyFits(block, d, r);
    var m := Torn(block, d, r, k);
    ChainBounds(block, d.mem, d.rd, q, d.wr);
    ChainFrame(block, d.mem, m, d.rd, q, d.wr);
    FirstFrame(d.mem, m, d.rd);
  }

  /** What a push leaves: the queue with the record appended, and a reboot finds it again if and only
      if, besides the other two conditions, the bytes where the next header will be are unused already. */
  lemma PushRecoversExactly(block: BlockSize, d: Disk, q: seq<Record>, r: Record)
    requires Laid(block, d.mem, d.rd, q, d.wr) && 0 < |r| <= MAX_RECORD && Fits(block, d, |r|)
    ensures var d' := Pushed(block, d, r);
            && Laid(block, d'.mem, d'.rd, q + [r], d'.wr)
            && (Recover(block, d'.mem) == Found(d'.rd, d'.wr)
                <==> && Skips(block, d'.mem, 0, d.rd)
                     && TailSeen(|d.mem|, q + [r], d'.wr)
                     && UnusedAt(d.mem, d.wr + Span(block, |r|)))
  {
    hide Laid, Recover, Skips, TailSeen, UnusedAt, Image, Overlay, Span, Fits;
    PushLaid(block, d, q, r);
    PushLeavesSlot(block, d, r);
    var d' := Pushed(block, d, r);
    RecoverExactly(block, d'.mem, d'.rd, q + [r], d'.wr);
  }

  lemma SlotOverTorn(block: BlockSize, d: Disk, q: seq<Record>, r: Record, k: nat, next: Record)
    requires Holds(block, d, q) && Fits(block, d, |r|) && Fits(block, d, |next|) && k <= |Body(block, r)|
    ensures UnusedAt(Torn(block, d, r, k), d.wr + Span(block, |next|)) <==> SlotClean(block, d, r, k, next)
  {
    hide Body, Rem, Span, Holds;
    BodyFits(block, d, r);
    BodyFits(block, d, next);
    TailErased(block, d, q);
    var p, slot, m := |Body(block, next)|, d.wr + Span(block, |next|), Torn(block, d, r, k);
    if slot + HEADER <= |d.mem| {
      assert m[slot] == if p < k then Body(block, r)[p] else ERASED;
      assert m[slot + 1] == if p + 1 < k then Body(block, r)[p + 1] else ERASED;
    }
  }

  lemma TornAccepted(block: BlockSize, d: Disk, q: seq<Record>, r: Record, k: nat, next: Record)
    requires Holds(block, d, q) && Fits(block, d, |r|) && Fits(block, d, |next|) && k <= |Body(block, r)|
    ensures PushAccepted(block, Disk(Torn(block, d, r, k), d.rd, d.wr), next)
       <==> Overwrites(block, Body(block, r), k, Body(block, next))
  {
    hide Body, Rem, Programmable, Overwrites, Holds, Span, Fits, Aligned;
    BodyFits(block, d, next);
    BodyFits(block, d, r);
    BodyAligned(block, next);
    TornProgrammable(block, d, q, r, k, Body(block, next));
    HeaderSlotErased(block, d, q, Body(block, r)[..k], Body(block, next), PushHeader(next));
    hide Overlay, PushHeader;
  }

  lemma HeaderSlotErased(block: BlockSize, d: Disk, q: seq<Record>, a: seq<byte>, b: seq<byte>, header: seq<byte>)
    requires Holds(block, d, q) && |header| == HEADER
    requires d.wr + HEADER + |a| <= |d.mem| && d.wr + HEADER + |b| <= |d.mem|
    ensures Programmable(block, Overlay(Overlay(d.mem, d.wr + HEADER, a), d.wr + HEADER, b), d.wr, header)
  {
    LayoutEnd(block, d, q);
    TailErased(block, d, q);
    AlignedAdd(block, d.wr, d.wr);
    hide Rem, Programmable, Holds;
    ErasedProgrammable(block, Overlay(Overlay(d.mem, d.wr + HEADER, a), d.wr + HEADER, b), d.wr, header);
  }

  /** A record of one byte with 8-byte blocks. */
  lemma OneByte(b: byte)
    requires b != 0xFF && b != 0xFE
    ensures Body(8, [b]) == [b, 0xFF, 0xFF, 0xFF, 0xFF, 0xFF, 0xFF, 0xFF]
    ensures Span(8, 1) == 16 && QuietRecord(8, [b])
  {
    var body := Body(8, [b]);
    assert body == [b, 0xFF, 0xFF, 0xFF, 0xFF, 0xFF, 0xFF, 0xFF];
    forall p: nat | p < |body| && Aligned(8, p) ensures QuietAt(body, p, |body|) {
      assert p == 0;
      LiveBytes(body[0], body[1]);
    }
  }

  /** A run that loses a stored record: erase, push [1], lose power in a push of [2] after its body,
      boot, push [3]. The boot still finds [1]; the push is refused and erases it. */
  lemma LostQueue(size: nat)
    requires 64 <= size
    ensures Fits(8, Reset(size), 1)
    ensures var d := Pushed(8, Reset(size), [1]);
            && Fits(8, d, 1) && |Body(8, [2])| == 8
            && var t := Boot(8, Torn(8, d, [2], 8));
            && t == Disk(Torn(8, d, [2], 8), 0, 16) && Chain(8, t.mem, t.rd, [[1]], t.wr)
            && Fits(8, t, 1) && DevicePush(8, t, [3]) == (Reset(size), Internal)
  {
    OneByte(1);
    OneByte(2);
    OneByte(3);
    ResetHolds(8, size);
    var d0 := Reset(size);
    var d := Pushed(8, d0, [1]);
    assert Invariant(8, d0, Log([], 0)) by {
      EmptyInvariant(8, size);
    }
    hide Span, Body, Image, Holds, QuietRecord;
    PushStep(8, d0, Log([], 0), [1]);
    assert StepLog(8, d0, Log([], 0), Push([1])) == Log([[1]], 0);
    assert Log([[1]], 0).Queue() == [[1]];
    LostAfterCrash(size, d);
  }

  lemma EmptyInvariant(block: BlockSize, size: nat)
    requires HEADER <= size
    ensures Invariant(block, Reset(size), Log([], 0))
  {
    ResetHolds(block, size);
    hide Holds;
  }

  lemma LostAfterCrash(size: nat, d: Disk)
    requires 64 <= size == |d.mem| && d.rd == 0 && d.wr == 16
    requires Invariant(8, d, Log([[1]], 0))
    ensures Span(8, 1) == 16 && Fits(8, d, 1) && |Body(8, [2])| == 8
    ensures var t := Boot(8, Torn(8, d, [2], 8));
            && t == Disk(Torn(8, d, [2], 8), 0, 16) && Chain(8, t.mem, t.rd, [[1]], t.wr)
            && Fits(8, t, 1) && DevicePush(8, t, [3]) == (Reset(size), Internal)
  {
    OneByte(2);
    OneByte(3);
    assert Log([[1]], 0).Queue() == [[1]];
    assert !Overwrites(8, Body(8, [2]), 8, Body(8, [3])) by {
      assert Aligned(8, 0) && !ErasedWithin(Body(8, [2]), 8, 0, 8) && !ZeroBlock(Body(8, [3]), 0, 8);
    }
    hide Span, Body, QuietRecord, Overwrites, Chain, Recover, Holds, AllQuiet, Quiet, Skips;
    TornIsInvisible(8, d, Log([[1]], 0), [2], 8);
    FullRecovers(8, Torn(8, d, [2], 8), 0, [[1]], 16);
    TornPushExactly(8, d, [[1]], [2], 8, [3]);
  }

  /** A record whose last bytes are the image of another record. */
  function Nested(inner: Record): Record { Blank(8) + Image(8, inner) }

  lemma NestedBody(inner: Record)
    ensures |Nested(inner)| == 8 + Span(8, |inner|) && Body(8, Nested(inner)) == Nested(inner)
  {
    SpanAligned(8, 8, |inner|);
  }

  lemma GhostAccepted(size: nat, x: Record)
    requires 64 <= size && |x| == 8
    ensures Span(8, 1) == 16 && |Body(8, Nested([7]))| == 24 && Fits(8, Reset(size), |Nested([7])|)
    ensures Fits(8, Disk(Torn(8, Reset(size), Nested([7]), 24), 0, 0), 8)
    ensures PushAccepted(8, Disk(Torn(8, Reset(size), Nested([7]), 24), 0, 0), x)
  {
    hide Image, Holds, PushAccepted;
    NestedBody([7]);
    ResetHolds(8, size);
    assert Body(8, x) == x;
    assert ErasedWithin(Body(8, Nested([7])), 24, 0, 8);
    assert Overwrites(8, Body(8, Nested([7])), 24, Body(8, x));
    TornAccepted(8, Reset(size), [], Nested([7]), 24, x);
  }

  /** The torn bytes hold a whole record behind what an eight-byte record takes. */
  lemma GhostInTorn(size: nat)
    requires 64 <= size
    ensures Span(8, 1) == 16 && |Body(8, Nested([7]))| == 24 && Fits(8, Reset(size), |Nested([7])|)
    ensures var torn := Torn(8, Reset(size), Nested([7]), 24);
            |torn| == size && RecordAt(8, torn, 16, [7]) && IsErased(torn, 32, size)
  {
    hide Image, RecordAt, Overlay, Blank;
    NestedBody([7]);
    ImageIsRecord(8, Blank(size), 16, [7]);
    BehindBlank(size, Image(8, [7]));
    hide Body, Nested, Span;
    assert Body(8, Nested([7]))[..24] == Nested([7]);
  }

  lemma BehindBlank(size: nat, data: seq<byte>)
    requires 16 + |data| <= size
    ensures Overlay(Blank(size), 8, Blank(8) + data) == Overlay(Blank(size), 16, data)
  {
    hide Blank;
  }

  lemma GhostChain(size: nat, x: Record)
    requires 64 <= size && |x| == 8
    ensures Span(8, 1) == 16 && |Body(8, Nested([7]))| == 24 && Fits(8, Reset(size), |Nested([7])|)
    ensures Fits(8, Disk(Torn(8, Reset(size), Nested([7]), 24), 0, 0), 8)
    ensures var m := Pushed(8, Disk(Torn(8, Reset(size), Nested([7]), 24), 0, 0), x).mem;
            |m| == size && Chain(8, m, 0, [x, [7]], 32) && IsErased(m, 32, size)
  {
    hide Image, Body, RecordAt, Chain, Torn, Nested;
    GhostInTorn(size);
    OverGhost(Torn(8, Reset(size), Nested([7]), 24), x);
  }

  lemma OverGhost(torn: seq<byte>, x: Record)
    requires 64 <= |torn| && |x| == 8 && RecordAt(8, torn, 16, [7]) && IsErased(torn, 32, |torn|)
    ensures Fits(8, Disk(torn, 0, 0), 8)
    ensures var m := Pushed(8, Disk(torn, 0, 0), x).mem;
            |m| == |torn| && Chain(8, m, 0, [x, [7]], 32) && IsErased(m, 32, |m|)
  {
    hide Image, RecordAt, Chain;
    ImageIsRecord(8, torn, 0, x);
    var m := Pushed(8, Disk(torn, 0, 0), x).mem;
    RecordFrame(8, torn, m, 16, [7]);
    TwoChained(8, m, x, [7]);
  }

  lemma TwoChained(block: BlockSize, mem: seq<byte>, x: Record, y: Record)
    requires RecordAt(block, mem, 0, x) && RecordAt(block, mem, Span(block, |x|), y)
    ensures Chain(block, mem, 0, [x, y], Span(block, |x|) + Span(block, |y|))
  {
    hide RecordAt, Span;
    ChainAppend(block, mem, 0, [], 0, x);
    assert [] + [x] == [x] && [x] + [y] == [x, y];
    ChainAppend(block, mem, 0, [x], Span(block, |x|), y);
  }

  /** A run that finds a record nobody pushed: power fails in the push of a record that holds the image
      of another one, after its body; the next push is eight bytes long and ends where that image begins. */
  lemma GhostRecord(size: nat, x: Record)
    requires 64 <= size && |x| == 8
    ensures |Body(8, Nested([7]))| == 24 && Fits(8, Reset(size), |Nested([7])|)
    ensures var t := Boot(8, Torn(8, Reset(size), Nested([7]), 24));
            && t == Disk(Torn(8, Reset(size), Nested([7]), 24), 0, 0)
            && Fits(8, t, 8) && DevicePush(8, t, x) == (Pushed(8, t, x), Success)
            && var b := Boot(8, Pushed(8, t, x).mem);
            b == Disk(Pushed(8, t, x).mem, 0, 32) && Chain(8, b.mem, 0, [x, [7]], 32)
  {
    hide Image, Rem, Recover, Chain, PushAccepted, RecordAt, Body, Nested, Pushed;
    GhostAccepted(size, x);
    ResetHolds(8, size);
    var torn := Torn(8, Reset(size), Nested([7]), 24);
    TornLaid(8, Reset(size), [], Nested([7]), 24);
    RecoverExactly(8, torn, 0, [], 0);
    GhostChain(size, x);
    RecoverExactly(8, Pushed(8, Disk(torn, 0, 0), x).mem, 0, [x, [7]], 32);
  }
}
