/** The CAN transmit pipeline: producers copy messages into slab blocks and queue them, one thread
    hands the queued blocks to the driver and frees them. Every interleaving is a sequence of steps. */
module CanTx {
  import opened Bytes
  import opened Errors
  import opened Kernel

  const FRAME_MAX: nat := 64 // CAN_FRAME_MAX_SIZE

  /** What a caller passes, and what a queue entry refers to. */
  datatype Message = Message(dest: nat, data: seq<byte>)
  datatype Entry = Entry(dest: nat, block: nat, size: nat)

  /** What the driver gets: the payload, zero-filled to the size of a frame. */
  datatype Frame = Frame(id: nat, size: nat, data: seq<byte>)

  datatype Producer =
    | Idle
    | Allocating(message: Message)
    | Holding(message: Message, block: nat)
    | Copied(message: Message, block: nat)

  datatype Sender =
    | AwaitSlot
    | AwaitEntry
    | Sending(entry: Entry)
    | Freeing(block: nat, failed: bool)

  /** `free` is the slab's free list, `mem` its buffer, `slot` the count of tx_sem. `accepted` and
      `sent` are histories: the messages queued and the frames handed to the driver. */
  datatype System = System(mem: seq<byte>, free: seq<nat>, queue: seq<Entry>, producers: seq<Producer>,
                           sender: Sender, slot: nat, accepted: seq<Message>, sent: seq<Frame>)

  datatype Event =
    | Call(p: nat, message: Message, stopped: bool) // parameter and bus state checks
    | Alloc(p: nat)        // k_mem_slab_alloc
    | AllocTimeout(p: nat) // ... which finds no block in time
    | Copy(p: nat)         // memcpy
    | Put(p: nat)          // k_msgq_put
    | PutTimeout(p: nat)   // ... which finds no room in time
    | TakeSlot             // k_sem_take(&tx_sem)
    | SlotTimeout          // ... which times out
    | Get                  // k_msgq_get
    | Send(failed: bool)   // send
    | FreeBlock            // k_mem_slab_free, and k_sem_give after an error
    | TxComplete           // tx_complete_cb

  predicate ProducerShape(blocks: nat, p: Producer) {
    match p
    case Idle => true
    case Allocating(m) => |m.data| <= FRAME_MAX
    case Holding(m, b) => |m.data| <= FRAME_MAX && b < blocks
    case Copied(m, b) => |m.data| <= FRAME_MAX && b < blocks
  }

  predicate EntryShape(blocks: nat, e: Entry) { e.block < blocks && e.size <= FRAME_MAX }

  predicate SenderShape(blocks: nat, s: Sender) {
    match s
    case Sending(e) => EntryShape(blocks, e)
    case Freeing(b, _) => b < blocks
    case _ => true
  }

  predicate Fitting(ms: seq<Message>) { forall i :: 0 <= i < |ms| ==> |ms[i].data| <= FRAME_MAX }

  /** `blocks` is CONFIG_ORB_LIB_CANBUS_TX_QUEUE_SIZE: the size of the slab and of the queue. */
  predicate Shape(blocks: nat, s: System) {
    && |s.mem| == FRAME_MAX * blocks
    && (forall i :: 0 <= i < |s.free| ==> s.free[i] < blocks)
    && (forall i :: 0 <= i < |s.producers| ==> ProducerShape(blocks, s.producers[i]))
    && (forall i :: 0 <= i < |s.queue| ==> EntryShape(blocks, s.queue[i]))
    && SenderShape(blocks, s.sender)
    && Fitting(s.accepted)
  }

  function ToFrame(dest: nat, data: seq<byte>): Frame
    requires |data| <= FRAME_MAX
  {
    Frame(dest, |data|, data + seq(FRAME_MAX - |data|, i => 0))
  }

  /** What `send` builds from a queue entry and the buffer it points to. */
  function EntryFrame(blocks: nat, mem: seq<byte>, e: Entry): Frame
    requires |mem| == FRAME_MAX * blocks && EntryShape(blocks, e)
  {
    ToFrame(e.dest, mem[FRAME_MAX * e.block..FRAME_MAX * e.block + e.size])
  }

  /** The producer's side; an event that is not enabled leaves the system as it is. */
  function Produce(blocks: nat, s: System, e: Event): (s': System)
    requires Shape(blocks, s)
    ensures Shape(blocks, s')
  {
    match e
    case Call(p, m, stopped) =>
      if p < |s.producers| && s.producers[p] == Idle && !stopped && |m.data| <= FRAME_MAX
        then s.(producers := s.producers[p := Allocating(m)]) else s
    case Alloc(p) =>
      if p < |s.producers| && s.producers[p].Allocating? && s.free != []
        then s.(producers := s.producers[p := Holding(s.producers[p].message, s.free[0])], free := s.free[1..]) else s
    case AllocTimeout(p) =>
      if p < |s.producers| && s.producers[p].Allocating? && s.free == []
        then s.(producers := s.producers[p := Idle]) else s
    case Copy(p) =>
      if p < |s.producers| && s.producers[p].Holding?
        then
          var m, b := s.producers[p].message, s.producers[p].block;
          s.(mem := Overlay(s.mem, FRAME_MAX * b, m.data), producers := s.producers[p := Copied(m, b)])
      else s
    case Put(p) =>
      if p < |s.producers| && s.producers[p].Copied? && |s.queue| < blocks
        then
          var m, b := s.producers[p].message, s.producers[p].block;
          s.(queue := s.queue + [Entry(m.dest, b, |m.data|)], producers := s.producers[p := Idle],
             accepted := s.accepted + [m])
      else s
    case PutTimeout(p) =>
      if p < |s.producers| && s.producers[p].Copied? && |s.queue| >= blocks
        then s.(free := [s.producers[p].block] + s.free, producers := s.producers[p := Idle]) else s
    case _ => s
  }

  /** The sender's side. */
  function Consume(blocks: nat, s: System, e: Event): (s': System)
    requires Shape(blocks, s)
    ensures Shape(blocks, s')
  {
    match e
    case TakeSlot =>
      if s.sender == AwaitSlot && s.slot > 0 then s.(slot := s.slot - 1, sender := AwaitEntry) else s
    case SlotTimeout =>
      if s.sender == AwaitSlot && s.slot == 0 then s.(slot := Give(s.slot)) else s
    case Get =>
      if s.sender == AwaitEntry && s.queue != []
        then s.(sender := Sending(s.queue[0]), queue := s.queue[1..]) else s
    case Send(failed) =>
      if s.sender.Sending?
        then s.(sent := s.sent + [EntryFrame(blocks, s.mem, s.sender.entry)],
                sender := Freeing(s.sender.entry.block, failed)) else s
    case FreeBlock =>
      if s.sender.Freeing?
        then s.(free := [s.sender.block] + s.free, slot := if s.sender.failed then Give(s.slot) else s.slot,
                sender := AwaitSlot) else s
    case TxComplete => s.(slot := Give(s.slot))
    case _ => s
  }

  function Next(blocks: nat, s: System, e: Event): (s': System)
    requires Shape(blocks, s)
    ensures Shape(blocks, s')
  {
    match e
    case Call(_, _, _) => Produce(blocks, s, e)
    case Alloc(_) => Produce(blocks, s, e)
    case AllocTimeout(_) => Produce(blocks, s, e)
    case Copy(_) => Produce(blocks, s, e)
    case Put(_) => Produce(blocks, s, e)
    case PutTimeout(_) => Produce(blocks, s, e)
    case _ => Consume(blocks, s, e)
  }

  function Run(blocks: nat, s: System, events: seq<Event>): (s': System)
    requires Shape(blocks, s)
    ensures Shape(blocks, s')
    decreases |events|
  {
    if events == [] then s else Next(blocks, Run(blocks, s, events[..|events| - 1]), events[|events| - 1])
  }

  function AllBlocks(blocks: nat): seq<nat> { seq(blocks, i requires 0 <= i < blocks => i) }

  /** After `canbus_tx_init`. */
  function Initial(blocks: nat, mem: seq<byte>, producers: nat): System {
    System(mem, AllBlocks(blocks), [], seq(producers, i => Idle), AwaitSlot, 1, [], [])
  }

  // ---- ownership

  function ProducerBlock(p: Producer): multiset<nat> {
    if p.Holding? || p.Copied? then multiset{p.block} else multiset{}
  }

  function Held(ps: seq<Producer>): multiset<nat> {
    if ps == [] then multiset{} else ProducerBlock(ps[0]) + Held(ps[1..])
  }

  function Queued(es: seq<Entry>): multiset<nat> {
    if es == [] then multiset{} else multiset{es[0].block} + Queued(es[1..])
  }

  function SenderBlock(s: Sender): multiset<nat> {
    match s
    case Sending(e) => multiset{e.block}
    case Freeing(b, _) => multiset{b}
    case _ => multiset{}
  }

  /** Every block, as often as it is owned. */
  function Owners(s: System): multiset<nat> {
    multiset(s.free) + Held(s.producers) + Queued(s.queue) + SenderBlock(s.sender)
  }

  /** What the queue will send. */
  function Pending(blocks: nat, mem: seq<byte>, es: seq<Entry>): seq<Frame>
    requires |mem| == FRAME_MAX * blocks && forall i :: 0 <= i < |es| ==> EntryShape(blocks, es[i])
  {
    seq(|es|, i requires 0 <= i < |es| => EntryFrame(blocks, mem, es[i]))
  }

  function InFlight(blocks: nat, s: System): seq<Frame>
    requires Shape(blocks, s)
  {
    (if s.sender.Sending? then [EntryFrame(blocks, s.mem, s.sender.entry)] else [])
    + Pending(blocks, s.mem, s.queue)
  }

  /** A producer that has copied its message finds it in its block. */
  ghost predicate CopiesIntact(blocks: nat, s: System)
    requires Shape(blocks, s)
  {
    forall i :: 0 <= i < |s.producers| && s.producers[i].Copied? ==>
      var m, b := s.producers[i].message, s.producers[i].block;
      EntryFrame(blocks, s.mem, Entry(m.dest, b, |m.data|)) == ToFrame(m.dest, m.data)
  }

  function Frames(ms: seq<Message>): (fs: seq<Frame>)
    requires Fitting(ms)
    ensures |fs| == |ms|
  {
    seq(|ms|, i requires 0 <= i < |ms| => ToFrame(ms[i].dest, ms[i].data))
  }

  /** Each block has one owner, what was accepted is what was sent plus what is on its way, and the
      sending semaphore is binary. */
  ghost predicate Safe(blocks: nat, s: System) {
    && Shape(blocks, s)
    && Owners(s) == multiset(AllBlocks(blocks))
    && Frames(s.accepted) == s.sent + InFlight(blocks, s)
    && s.slot <= 1
    && CopiesIntact(blocks, s)
  }

  lemma Exchange(a: multiset<nat>, b: multiset<nat>, out: multiset<nat>, c: multiset<nat>, put: multiset<nat>)
    requires b + out == c + put
    ensures a + b + out == a + c + put
  {
    assert a + b + out == a + (b + out);
  }

  lemma {:induction false} HeldUpdate(ps: seq<Producer>, p: nat, x: Producer)
    requires p < |ps|
    ensures Held(ps[p := x]) + ProducerBlock(ps[p]) == Held(ps) + ProducerBlock(x)
  {
    var qs := ps[p := x];
    if p == 0 {
      assert qs[1..] == ps[1..];
    } else {
      HeldUpdate(ps[1..], p - 1, x);
      assert qs[1..] == ps[1..][p - 1 := x] && qs[0] == ps[0];
      Exchange(ProducerBlock(ps[0]), Held(qs[1..]), ProducerBlock(ps[p]), Held(ps[1..]), ProducerBlock(x));
    }
  }

  lemma {:induction false} HeldBy(ps: seq<Producer>, p: nat)
    requires p < |ps|
    ensures ProducerBlock(ps[p]) <= Held(ps)
  {
    if p > 0 {
      HeldBy(ps[1..], p - 1);
    }
  }

  lemma {:induction false} QueuedAppend(es: seq<Entry>, e: Entry)
    ensures Queued(es + [e]) == Queued(es) + multiset{e.block}
  {
    if es != [] {
      QueuedAppend(es[1..], e);
      assert (es + [e])[1..] == es[1..] + [e];
    }
  }

  lemma {:induction false} QueuedHas(es: seq<Entry>, i: nat)
    requires i < |es|
    ensures es[i].block in Queued(es)
  {
    if i > 0 {
      QueuedHas(es[1..], i - 1);
    }
  }

  lemma {:induction false} QueuedSize(es: seq<Entry>)
    ensures |Queued(es)| == |es|
  {
    if es != [] {
      QueuedSize(es[1..]);
    }
  }

  lemma {:induction false} AllBlocksOnce(blocks: nat, b: nat)
    ensures multiset(AllBlocks(blocks))[b] == if b < blocks then 1 else 0
  {
    if blocks > 0 {
      AllBlocksOnce(blocks - 1, b);
      assert AllBlocks(blocks) == AllBlocks(blocks - 1) + [blocks - 1];
    }
  }

  /** The frame is the message: its address, its size, its bytes, and zeros up to the size of a frame. */
  ghost predicate Carries(f: Frame, m: Message) {
    && f.id == m.dest && f.size == |m.data| <= 64 == |f.data|
    && f.data[..|m.data|] == m.data
    && forall i :: |m.data| <= i < 64 ==> f.data[i] == 0
  }

  lemma FrameCarries(m: Message)
    requires |m.data| <= FRAME_MAX
    ensures Carries(ToFrame(m.dest, m.data), m)
  {
  }

  /** The frames handed to the driver are the messages accepted, in order. */
  ghost predicate InOrder(s: System) {
    |s.sent| <= |s.accepted| && forall i :: 0 <= i < |s.sent| ==> Carries(s.sent[i], s.accepted[i])
  }

  lemma SafeIsInOrder(blocks: nat, s: System)
    requires Safe(blocks, s)
    ensures InOrder(s) && (|s.sent| == |s.accepted| <==> s.queue == [] && !s.sender.Sending?)
  {
    hide ToFrame, Carries, Owners, EntryFrame, CopiesIntact;
    forall i | 0 <= i < |s.sent| ensures Carries(s.sent[i], s.accepted[i]) {
      FrameCarries(s.accepted[i]);
      assert s.sent[i] == Frames(s.accepted)[i];
    }
  }

  // ---- every step keeps it

  /** One block moves from one owner to another. */
  lemma Moved(a: multiset<nat>, b: multiset<nat>, c: multiset<nat>, d: multiset<nat>,
              a': multiset<nat>, b': multiset<nat>, x: multiset<nat>)
    requires a == a' + x && b' == b + x
    ensures a' + b' + c + d == a + b + c + d
    ensures b' + a' + c + d == b + a + c + d
    ensures c + a' + b' + d == c + a + b + d
  {
  }

  lemma NewState(ps: seq<Producer>, p: nat, x: Producer)
    requires p < |ps|
    ensures ProducerBlock(ps[p]) == multiset{} ==> Held(ps[p := x]) == Held(ps) + ProducerBlock(x)
    ensures ProducerBlock(x) == multiset{} ==> Held(ps) == Held(ps[p := x]) + ProducerBlock(ps[p])
    ensures ProducerBlock(ps[p]) == ProducerBlock(x) ==> Held(ps[p := x]) == Held(ps)
  {
    hide ProducerBlock, Held;
    HeldUpdate(ps, p, x);
    if ProducerBlock(ps[p]) == ProducerBlock(x) {
      Cancel(Held(ps[p := x]), Held(ps), ProducerBlock(x));
    }
  }

  lemma HeldByTwo(ps: seq<Producer>, p: nat, r: nat)
    requires p < |ps| && r < |ps| && p != r
    ensures ProducerBlock(ps[p]) + ProducerBlock(ps[r]) <= Held(ps)
  {
    NewState(ps, p, Idle);
    HeldBy(ps[p := Idle], r);
    hide ProducerBlock, Held;
  }

  lemma Cancel(a: multiset<nat>, b: multiset<nat>, c: multiset<nat>)
    requires a + c == b + c
    ensures a == b
  {
    forall y ensures a[y] == b[y] {
      assert (a + c)[y] == (b + c)[y];
    }
  }

  lemma OwnersKept(blocks: nat, s: System, e: Event)
    requires Shape(blocks, s)
    ensures Owners(Next(blocks, s, e)) == Owners(s)
  {
    hide Owners, Shape, Produce, Consume;
    match e
    case Call(p, m, stopped) => CallKeeps(blocks, s, p, m, stopped);
    case Alloc(p) => AllocKeeps(blocks, s, p);
    case AllocTimeout(p) => AllocTimeoutKeeps(blocks, s, p);
    case Copy(p) => CopyKeepsOwners(blocks, s, p);
    case Put(p) => PutKeeps(blocks, s, p);
    case PutTimeout(p) => PutTimeoutKeeps(blocks, s, p);
    case _ => ConsumerKeeps(blocks, s, e);
  }

  lemma CallKeeps(blocks: nat, s: System, p: nat, m: Message, stopped: bool)
    requires Shape(blocks, s)
    ensures Owners(Produce(blocks, s, Call(p, m, stopped))) == Owners(s)
  {
    hide EntryFrame, ToFrame, Shape, Held, Queued, SenderBlock;
    if p < |s.producers| {
      NewState(s.producers, p, Allocating(m));
    }
  }

  lemma AllocTimeoutKeeps(blocks: nat, s: System, p: nat)
    requires Shape(blocks, s)
    ensures Owners(Produce(blocks, s, AllocTimeout(p))) == Owners(s)
  {
    hide EntryFrame, ToFrame, Shape, Held, Queued, SenderBlock;
    if p < |s.producers| {
      NewState(s.producers, p, Idle);
    }
  }

  lemma CopyKeepsOwners(blocks: nat, s: System, p: nat)
    requires Shape(blocks, s)
    ensures Owners(Produce(blocks, s, Copy(p))) == Owners(s)
  {
    hide EntryFrame, ToFrame, Shape, Held, Queued, SenderBlock, Overlay;
    if p < |s.producers| && s.producers[p].Holding? {
      NewState(s.producers, p, Copied(s.producers[p].message, s.producers[p].block));
    }
  }

  lemma AllocKeeps(blocks: nat, s: System, p: nat)
    requires Shape(blocks, s)
    ensures Owners(Produce(blocks, s, Alloc(p))) == Owners(s)
  {
    hide EntryFrame, ToFrame, Shape, Held, Queued, SenderBlock;
    if p < |s.producers| && s.producers[p].Allocating? && s.free != [] {
      var x := Holding(s.producers[p].message, s.free[0]);
      NewState(s.producers, p, x);
      assert s.free == [s.free[0]] + s.free[1..];
      Moved(multiset(s.free), Held(s.producers), Queued(s.queue), SenderBlock(s.sender),
            multiset(s.free[1..]), Held(s.producers[p := x]), multiset{s.free[0]});
    }
  }

  lemma PutKeeps(blocks: nat, s: System, p: nat)
    requires Shape(blocks, s)
    ensures Owners(Produce(blocks, s, Put(p))) == Owners(s)
  {
    hide EntryFrame, ToFrame, Shape, Held, Queued, SenderBlock;
    if p < |s.producers| && s.producers[p].Copied? && |s.queue| < blocks {
      var m, b := s.producers[p].message, s.producers[p].block;
      NewState(s.producers, p, Idle);
      QueuedAppend(s.queue, Entry(m.dest, b, |m.data|));
      Moved(Held(s.producers), Queued(s.queue), multiset(s.free), SenderBlock(s.sender),
            Held(s.producers[p := Idle]), Queued(s.queue + [Entry(m.dest, b, |m.data|)]), multiset{b});
    }
  }

  lemma PutTimeoutKeeps(blocks: nat, s: System, p: nat)
    requires Shape(blocks, s)
    ensures Owners(Produce(blocks, s, PutTimeout(p))) == Owners(s)
  {
    hide EntryFrame, ToFrame, Shape, Held, Queued, SenderBlock;
    if p < |s.producers| && s.producers[p].Copied? && |s.queue| >= blocks {
      var b := s.producers[p].block;
      NewState(s.producers, p, Idle);
      Moved(Held(s.producers), multiset(s.free), Queued(s.queue), SenderBlock(s.sender),
            Held(s.producers[p := Idle]), multiset([b] + s.free), multiset{b});
    }
  }

  lemma ConsumerKeeps(blocks: nat, s: System, e: Event)
    requires Shape(blocks, s)
    ensures Owners(Consume(blocks, s, e)) == Owners(s)
  {
    hide EntryFrame, ToFrame, Shape, Held, Queued;
    match e
    case Get => GetKeeps(blocks, s);
    case FreeBlock => FreeKeeps(blocks, s);
    case _ =>
  }

  lemma GetKeeps(blocks: nat, s: System)
    requires Shape(blocks, s)
    ensures Owners(Consume(blocks, s, Get)) == Owners(s)
  {
    hide EntryFrame, ToFrame, Shape, Held, Queued;
    if s.sender == AwaitEntry && s.queue != [] {
      QueuedHead(s.queue);
      Passed(multiset(s.free) + Held(s.producers), Queued(s.queue[1..]), multiset{s.queue[0].block});
    }
  }

  lemma FreeKeeps(blocks: nat, s: System)
    requires Shape(blocks, s)
    ensures Owners(Consume(blocks, s, FreeBlock)) == Owners(s)
  {
    hide EntryFrame, ToFrame, Shape, Held, Queued;
    if s.sender.Freeing? {
      var b := s.sender.block;
      Returned(multiset(s.free), Held(s.producers), Queued(s.queue), multiset{b});
      assert multiset([b] + s.free) == multiset(s.free) + multiset{b};
    }
  }

  lemma Passed(rest: multiset<nat>, q: multiset<nat>, x: multiset<nat>)
    ensures rest + (q + x) + multiset{} == rest + q + x
  {
  }

  lemma Returned(f: multiset<nat>, h: multiset<nat>, q: multiset<nat>, x: multiset<nat>)
    ensures f + x + h + q + multiset{} == f + h + q + x
  {
  }

  lemma QueuedHead(es: seq<Entry>)
    requires es != []
    ensures Queued(es) == Queued(es[1..]) + multiset{es[0].block}
  {
  }

  /** Two owners of a block would make it occur twice. */
  lemma OnlyOwner(blocks: nat, s: System, b: nat)
    requires Owners(s) == multiset(AllBlocks(blocks))
    ensures multiset(s.free)[b] + Held(s.producers)[b] + Queued(s.queue)[b] + SenderBlock(s.sender)[b]
         == if b < blocks then 1 else 0
  {
    AllBlocksOnce(blocks, b);
  }

  /** A producer that holds a block finds room in the queue: PutTimeout never happens. */
  lemma HolderFindsRoom(blocks: nat, s: System, p: nat)
    requires Shape(blocks, s) && Owners(s) == multiset(AllBlocks(blocks))
    requires p < |s.producers| && (s.producers[p].Holding? || s.producers[p].Copied?)
    ensures |s.queue| < blocks
  {
    QueuedSize(s.queue);
    HeldBy(s.producers, p);
    assert |multiset(AllBlocks(blocks))| == blocks;
    assert |Held(s.producers)| >= 1;
  }

  /** An allocation times out only while all blocks are in use. */
  lemma NoBlockMeansAllInUse(blocks: nat, s: System)
    requires Shape(blocks, s) && Owners(s) == multiset(AllBlocks(blocks)) && s.free == []
    ensures |Held(s.producers)| + |s.queue| + |SenderBlock(s.sender)| == blocks
  {
    QueuedSize(s.queue);
    assert |multiset(AllBlocks(blocks))| == blocks;
  }

  /** Copying into a block leaves what other blocks hold. */
  lemma CopyElsewhere(blocks: nat, mem: seq<byte>, b: nat, data: seq<byte>, e: Entry)
    requires |mem| == FRAME_MAX * blocks && b < blocks && |data| <= FRAME_MAX && EntryShape(blocks, e)
    ensures FRAME_MAX * b + |data| <= |mem|
    ensures e.block != b ==>
              EntryFrame(blocks, Overlay(mem, FRAME_MAX * b, data), e) == EntryFrame(blocks, mem, e)
    ensures e.block == b && e.size == |data| ==>
              EntryFrame(blocks, Overlay(mem, FRAME_MAX * b, data), e) == ToFrame(e.dest, data)
  {
    var mem' := Overlay(mem, FRAME_MAX * b, data);
    var lo := FRAME_MAX * e.block;
    if e.block != b {
      assert mem'[lo..lo + e.size] == mem[lo..lo + e.size];
    } else if e.size == |data| {
      assert mem'[lo..lo + e.size] == data;
    }
  }

  /** The block a producer copies into is in nobody's hands but its own. */
  lemma CopyIsPrivate(blocks: nat, s: System, p: nat)
    requires Safe(blocks, s) && p < |s.producers| && s.producers[p].Holding?
    ensures var b := s.producers[p].block;
            && (forall i :: 0 <= i < |s.queue| ==> s.queue[i].block != b)
            && (s.sender.Sending? ==> s.sender.entry.block != b)
            && (forall i :: 0 <= i < |s.producers| && i != p && s.producers[i].Copied? ==> s.producers[i].block != b)
  {
    hide EntryFrame, ToFrame, InFlight, CopiesIntact;
    var b := s.producers[p].block;
    OnlyOwner(blocks, s, b);
    HeldBy(s.producers, p);
    forall i | 0 <= i < |s.queue| ensures s.queue[i].block != b {
      QueuedHas(s.queue, i);
    }
    forall i | 0 <= i < |s.producers| && i != p && s.producers[i].Copied? ensures s.producers[i].block != b {
      HeldByTwo(s.producers, p, i);
    }
  }

  lemma CopyKeeps(blocks: nat, s: System, p: nat)
    requires Safe(blocks, s) && p < |s.producers| && s.producers[p].Holding?
    ensures var s' := Next(blocks, s, Copy(p));
            Frames(s'.accepted) == s'.sent + InFlight(blocks, s') && CopiesIntact(blocks, s')
  {
    CopyIsPrivate(blocks, s, p);
    var m, b, s' := s.producers[p].message, s.producers[p].block, Next(blocks, s, Copy(p));
    hide EntryFrame, ToFrame, Overlay, Owners;
    forall i | 0 <= i < |s.queue|
      ensures EntryFrame(blocks, s'.mem, s.queue[i]) == EntryFrame(blocks, s.mem, s.queue[i]) {
      CopyElsewhere(blocks, s.mem, b, m.data, s.queue[i]);
    }
    assert Pending(blocks, s'.mem, s.queue) == Pending(blocks, s.mem, s.queue);
    if s.sender.Sending? {
      CopyElsewhere(blocks, s.mem, b, m.data, s.sender.entry);
    }
    forall i | 0 <= i < |s.producers| && s'.producers[i].Copied?
      ensures var n, c := s'.producers[i].message, s'.producers[i].block;
              EntryFrame(blocks, s'.mem, Entry(n.dest, c, |n.data|)) == ToFrame(n.dest, n.data) {
      var n, c := s'.producers[i].message, s'.producers[i].block;
      CopyElsewhere(blocks, s.mem, b, m.data, Entry(n.dest, c, |n.data|));
    }
  }

  lemma OneFrameMore(ms: seq<Message>, m: Message)
    requires Fitting(ms) && |m.data| <= FRAME_MAX
    ensures Fitting(ms + [m]) && Frames(ms + [m]) == Frames(ms) + [ToFrame(m.dest, m.data)]
  {
    hide ToFrame;
  }

  /** The other steps move frames along without touching the buffer. */
  lemma FramesKept(blocks: nat, s: System, e: Event)
    requires Safe(blocks, s) && !e.Copy?
    ensures var s' := Next(blocks, s, e);
            Frames(s'.accepted) == s'.sent + InFlight(blocks, s') && CopiesIntact(blocks, s')
  {
    hide EntryFrame, ToFrame, Owners, Frames, Fitting;
    var s' := Next(blocks, s, e);
    assert s'.mem == s.mem;
    match e
    case Put(p) => PutFrames(blocks, s, p);
    case Get => GetFrames(blocks, s);
    case _ =>
  }

  lemma PutFrames(blocks: nat, s: System, p: nat)
    requires Safe(blocks, s)
    ensures var s' := Next(blocks, s, Put(p));
            Frames(s'.accepted) == s'.sent + InFlight(blocks, s') && CopiesIntact(blocks, s')
  {
    hide EntryFrame, ToFrame, Owners, Frames, Fitting;
    if p < |s.producers| && s.producers[p].Copied? && |s.queue| < blocks {
      var m, b, s' := s.producers[p].message, s.producers[p].block, Next(blocks, s, Put(p));
      OneFrameMore(s.accepted, m);
      assert Pending(blocks, s.mem, s'.queue)
          == Pending(blocks, s.mem, s.queue) + [EntryFrame(blocks, s.mem, Entry(m.dest, b, |m.data|))];
    }
  }

  lemma GetFrames(blocks: nat, s: System)
    requires Safe(blocks, s)
    ensures var s' := Next(blocks, s, Get);
            Frames(s'.accepted) == s'.sent + InFlight(blocks, s') && CopiesIntact(blocks, s')
  {
    hide EntryFrame, ToFrame, Owners, Frames, Fitting;
    if s.sender == AwaitEntry && s.queue != [] {
      assert Pending(blocks, s.mem, s.queue)
          == [EntryFrame(blocks, s.mem, s.queue[0])] + Pending(blocks, s.mem, s.queue[1..]);
    }
  }

  lemma SlotKept(blocks: nat, s: System, e: Event)
    requires Shape(blocks, s) && s.slot <= 1
    ensures Next(blocks, s, e).slot <= 1
  {
    hide Shape, EntryFrame;
  }

  lemma StepIsSafe(blocks: nat, s: System, e: Event)
    requires Safe(blocks, s)
    ensures Safe(blocks, Next(blocks, s, e))
  {
    hide Owners, InFlight, CopiesIntact, Next, Frames;
    OwnersKept(blocks, s, e);
    SlotKept(blocks, s, e);
    if e.Copy? {
      if e.p < |s.producers| && s.producers[e.p].Holding? {
        CopyKeeps(blocks, s, e.p);
      } else {
        NothingCopied(blocks, s, e.p);
      }
    } else {
      FramesKept(blocks, s, e);
    }
  }

  lemma NothingCopied(blocks: nat, s: System, p: nat)
    requires Shape(blocks, s)
    ensures (p < |s.producers| && s.producers[p].Holding?) || Next(blocks, s, Copy(p)) == s
  {
    hide Shape;
  }

  lemma {:induction false} HeldByNone(n: nat)
    ensures Held(seq(n, i => Idle)) == multiset{}
  {
    if n > 0 {
      HeldByNone(n - 1);
      assert seq(n, i => Idle)[1..] == seq(n - 1, i => Idle);
    }
  }

  lemma InitialIsSafe(blocks: nat, mem: seq<byte>, producers: nat)
    requires |mem| == FRAME_MAX * blocks
    ensures Safe(blocks, Initial(blocks, mem, producers))
  {
    HeldByNone(producers);
  }

  /** In every run of any number of producers against the sender: each block has exactly one owner,
      whoever holds a block finds room in the queue, and the frames handed to the driver are, in
      order and byte for byte, the messages accepted, except for those still on their way. */
  lemma {:induction false} RunsAreSafe(blocks: nat, mem: seq<byte>, producers: nat, events: seq<Event>)
    requires |mem| == FRAME_MAX * blocks
    ensures Shape(blocks, Initial(blocks, mem, producers))
    ensures var s := Run(blocks, Initial(blocks, mem, producers), events);
            && Safe(blocks, s) && s.slot <= 1
            && |s.sent| <= |s.accepted|
            && (forall i :: 0 <= i < |s.sent| ==> Carries(s.sent[i], s.accepted[i]))
            && (forall p :: 0 <= p < |s.producers| && (s.producers[p].Holding? || s.producers[p].Copied?) ==>
                  |s.queue| < blocks)
    decreases |events|
  {
    hide Owners, InFlight, Next, CopiesIntact;
    InitialIsSafe(blocks, mem, producers);
    if events != [] {
      RunsAreSafe(blocks, mem, producers, events[..|events| - 1]);
      StepIsSafe(blocks, Run(blocks, Initial(blocks, mem, producers), events[..|events| - 1]), events[|events| - 1]);
    }
    var s := Run(blocks, Initial(blocks, mem, producers), events);
    SafeIsInOrder(blocks, s);
    forall p | 0 <= p < |s.producers| && (s.producers[p].Holding? || s.producers[p].Copied?)
      ensures |s.queue| < blocks {
      HolderFindsRoom(blocks, s, p);
    }
  }

  // ---- the code

  /** One undisturbed call of `can_messaging_async_tx` as steps of the system. */
  function Transmit(blocks: nat, s: System, p: nat, m: Message, stopped: bool): (r: (System, Ret))
    requires Shape(blocks, s) && p < |s.producers| && s.producers[p] == Idle
    ensures Shape(blocks, r.0)
  {
    var s1 := Next(blocks, s, Call(p, m, stopped));
    if stopped then (s1, InvalidState)
    else if |m.data| > FRAME_MAX then (s1, InvalidParam)
    else if s.free == [] then (Next(blocks, s1, AllocTimeout(p)), NoMem)
    else
      var s3 := Next(blocks, Next(blocks, s1, Alloc(p)), Copy(p));
      if |s.queue| >= blocks then (Next(blocks, s3, PutTimeout(p)), Busy)
      else (Next(blocks, s3, Put(p)), Success)
  }

  /** Every answer of a call: it succeeds exactly when the bus is up, the message fits a frame and a block is
      free; then the message is the last one accepted. It never reports Busy. */
  lemma TransmitIsSafe(blocks: nat, s: System, p: nat, m: Message, stopped: bool)
    requires Safe(blocks, s) && p < |s.producers| && s.producers[p] == Idle
    ensures var (s', ret) := Transmit(blocks, s, p, m, stopped);
            && Safe(blocks, s')
            && (ret == InvalidState <==> stopped)
            && (ret == InvalidParam <==> !stopped && |m.data| > 64)
            && (ret == NoMem <==> !stopped && |m.data| <= 64 && s.free == [])
            && (ret == Success <==> !stopped && |m.data| <= 64 && s.free != [])
            && s'.accepted == (if ret == Success then s.accepted + [m] else s.accepted)
            && s'.sent == s.sent && s'.producers == s.producers
  {
    hide Owners, InFlight, CopiesIntact;
    var s1 := Next(blocks, s, Call(p, m, stopped));
    StepIsSafe(blocks, s, Call(p, m, stopped));
    if !stopped && |m.data| <= FRAME_MAX {
      StepIsSafe(blocks, s1, AllocTimeout(p));
      StepIsSafe(blocks, s1, Alloc(p));
      var s2 := Next(blocks, s1, Alloc(p));
      StepIsSafe(blocks, s2, Copy(p));
      StepIsSafe(blocks, Next(blocks, s2, Copy(p)), Put(p));
      if s.free != [] {
        HolderFindsRoom(blocks, s2, p);
      }
    }
  }

  /** One round of `process_tx_messages_thread`. */
  function Round(blocks: nat, s: System, failed: bool): System
    requires Shape(blocks, s) && s.sender == AwaitSlot && s.slot > 0 && s.queue != []
  {
    s.(queue := s.queue[1..],
       free := [s.queue[0].block] + s.free,
       slot := if failed then Give(s.slot - 1) else s.slot - 1,
       sent := s.sent + [EntryFrame(blocks, s.mem, s.queue[0])])
  }

  /** A round sends the oldest message accepted and not sent yet, and frees its block. */
  lemma RoundIsSafe(blocks: nat, s: System, failed: bool)
    requires Safe(blocks, s) && s.sender == AwaitSlot && s.slot > 0 && s.queue != []
    ensures Shape(blocks, Round(blocks, s, failed)) && Safe(blocks, Round(blocks, s, failed))
    ensures |s.sent| < |s.accepted|
    ensures Carries(EntryFrame(blocks, s.mem, s.queue[0]), s.accepted[|s.sent|])
    ensures Round(blocks, s, failed).sent == s.sent + [EntryFrame(blocks, s.mem, s.queue[0])]
  {
    hide EntryFrame, CopiesIntact, Owners;
    var s1 := Next(blocks, s, TakeSlot);
    var s2 := Next(blocks, s1, Get);
    var s3 := Next(blocks, s2, Send(failed));
    StepIsSafe(blocks, s, TakeSlot);
    StepIsSafe(blocks, s1, Get);
    StepIsSafe(blocks, s2, Send(failed));
    StepIsSafe(blocks, s3, FreeBlock);
    assert Next(blocks, s3, FreeBlock) == Round(blocks, s, failed);
    SafeIsInOrder(blocks, Round(blocks, s, failed));
    assert Round(blocks, s, failed).sent[|s.sent|] == EntryFrame(blocks, s.mem, s.queue[0]);
  }

  /** The sender is never held up for good: with a slot it goes on at once, without one after the timeout, and
      a frame that the driver refuses leaves the slot free. */
  lemma SenderGoesOn(blocks: nat, s: System)
    requires Safe(blocks, s)
    ensures s.sender == AwaitSlot ==>
              Next(blocks, Next(blocks, s, SlotTimeout), TakeSlot) == s.(sender := AwaitEntry, slot := 0)
    ensures s.sender.Freeing? && s.sender.failed ==>
              Next(blocks, s, FreeBlock).sender == AwaitSlot && Next(blocks, s, FreeBlock).slot == 1
    ensures Next(blocks, s, TxComplete).slot == 1
  {
    hide Shape, Owners, InFlight, CopiesIntact, Frames;
  }

  /** What the steps of a call amount to. */
  lemma TransmitSteps(blocks: nat, s: System, p: nat, m: Message)
    requires Shape(blocks, s) && p < |s.producers| && s.producers[p] == Idle
    ensures Transmit(blocks, s, p, m, true) == (s, InvalidState)
    ensures |m.data| > FRAME_MAX ==> Transmit(blocks, s, p, m, false) == (s, InvalidParam)
    ensures |m.data| <= FRAME_MAX && s.free == [] ==> Transmit(blocks, s, p, m, false) == (s, NoMem)
    ensures |m.data| <= FRAME_MAX && s.free != [] ==>
              var b := s.free[0];
              && FRAME_MAX * b + |m.data| <= |s.mem|
              && var mem := Overlay(s.mem, FRAME_MAX * b, m.data);
              Transmit(blocks, s, p, m, false) ==
              if |s.queue| >= blocks then (s.(mem := mem, free := [b] + s.free[1..]), Busy)
              else (s.(mem := mem, free := s.free[1..], queue := s.queue + [Entry(m.dest, b, |m.data|)],
                       accepted := s.accepted + [m]), Success)
  {
    hide ToFrame, Overlay, EntryFrame;
    var ps := s.producers;
    assert ps[p := Allocating(m)][p := Idle] == ps;
    if s.free != [] {
      var b := s.free[0];
      assert ps[p := Allocating(m)][p := Holding(m, b)][p := Copied(m, b)][p := Idle] == ps;
    }
  }

  class Pipeline {
    const blocks: nat
    const mem: array<byte>
    var free: seq<nat>
    var queue: seq<Entry>
    var slot: nat
    var sender: Sender
    ghost var producers: seq<Producer>
    ghost var accepted: seq<Message>
    ghost var sent: seq<Frame>

    ghost function View(): System
      reads this, mem
    {
      System(mem[..], free, queue, producers, sender, slot, accepted, sent)
    }

    /** `can_messaging_async_tx`, with nobody else moving meanwhile. */
    method AsyncTx(ghost p: nat, message: Message, stopped: bool) returns (ret: Ret)
      requires Shape(blocks, View()) && p < |producers| && producers[p] == Idle
      modifies this, mem
      ensures (View(), ret) == Transmit(blocks, old(View()), p, message, stopped)
    {
      TransmitSteps(blocks, View(), p, message);
      hide ToFrame, Overlay, EntryFrame, Transmit, Shape;
      ghost var before := View();
      if stopped {
        return InvalidState;
      }
      if |message.data| > FRAME_MAX {
        return InvalidParam;
      }
      if free == [] {
        return NoMem;
      }
      var block := free[0];
      free := free[1..];
      forall i | 0 <= i < |message.data| {
        mem[FRAME_MAX * block + i] := message.data[i];
      }
      assert mem[..] == Overlay(before.mem, FRAME_MAX * block, message.data);
      if |queue| >= blocks {
        free := [block] + free;
        return Busy;
      }
      queue := queue + [Entry(message.dest, block, |message.data|)];
      accepted := accepted + [message];
      ret := Success;
    }

    lemma NextIsOldest(failed: bool)
      requires Shape(blocks, View()) && sender == AwaitSlot && slot > 0 && queue != []
      ensures Safe(blocks, View()) ==>
                |sent| < |accepted| && Carries(EntryFrame(blocks, mem[..], queue[0]), accepted[|sent|])
    {
      hide Safe, EntryFrame, Carries, Round;
      if Safe(blocks, View()) {
        RoundIsSafe(blocks, View(), failed);
      }
    }

    /** One round of the sending thread; `failed` is the answer of the driver to `frame`. */
    method SendNext(failed: bool) returns (frame: Frame)
      requires Shape(blocks, View()) && sender == AwaitSlot && slot > 0 && queue != []
      modifies this
      ensures View() == Round(blocks, old(View()), failed)
      ensures sent == old(sent) + [frame]
      ensures Safe(blocks, old(View())) ==> |old(sent)| < |accepted| && Carries(frame, accepted[|old(sent)|])
    {
      NextIsOldest(failed);
      hide ToFrame, EntryFrame;
      slot := slot - 1;
      var entry := queue[0];
      queue := queue[1..];
      frame := EntryFrame(blocks, mem[..], entry);
      sent := sent + [frame];
      free := [entry.block] + free;
      if failed {
        slot := Give(slot);
      }
    }
  }
}
