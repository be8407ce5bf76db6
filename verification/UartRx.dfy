/** The UART receive path: DMA bytes land in a ring, the event callback finds complete messages in
    place and queues their positions, and a reader later copies payloads out across the wrap. */
module UartRx {
  import opened Bytes
  import opened Ring
  import opened UartParser

  const QUEUE_DEPTH: nat := 6 // slots of uart_recv_queue

  /** `uart_message_t`: a payload in the ring. */
  datatype Message = Message(start: nat, length: nat)

  function Payload(ring: seq<byte>, m: Message): seq<byte>
    requires m.start < |ring| && m.length <= |ring|
  {
    Slice(ring, m.start, m.length)
  }

  /** The positions `found` name the payloads `messages`. */
  ghost predicate Locates(ring: seq<byte>, found: seq<Message>, messages: seq<seq<byte>>) {
    && |found| == |messages|
    && forall i :: 0 <= i < |found| ==>
         found[i].start < |ring| && found[i].length < |ring| && Payload(ring, found[i]) == messages[i]
  }

  /** A queue that takes what fits and drops the rest. */
  function Enqueue(queue: seq<Message>, found: seq<Message>): (q: seq<Message>)
    ensures |queue| <= QUEUE_DEPTH ==> |q| <= QUEUE_DEPTH
  {
    var all := queue + found;
    if |all| <= QUEUE_DEPTH then all
    else if |queue| <= QUEUE_DEPTH then all[..QUEUE_DEPTH] else queue
  }

  /** Six messages wait at most, and none is dropped while there is room. */
  lemma EnqueueExactly(queue: seq<Message>, found: seq<Message>)
    requires |queue| <= 6
    ensures Enqueue(queue, found) == if |queue + found| <= 6 then queue + found else (queue + found)[..6]
  {
  }

  class Receiver {
    const ring: array<byte>
    var readIndex: int // UNSET until the first event
    var writeIndex: int
    var queue: seq<Message>
    ghost var chunks: seq<seq<byte>>    // every RX event so far
    ghost var delivered: seq<seq<byte>> // every payload found so far

    static const UNSET: int := -1

    constructor (size: nat)
      requires HEADER_SIZE < size
      ensures ring.Length == size && fresh(ring) && Consistent()
      ensures chunks == [] && delivered == [] && queue == []
    {
      ring := new byte[size];
      readIndex, writeIndex := UNSET, UNSET;
      queue := [];
      chunks, delivered := [], [];
    }

    ghost predicate Shape()
      reads this
    {
      && HEADER_SIZE < ring.Length
      && |queue| <= QUEUE_DEPTH
      && ((readIndex == UNSET && writeIndex == UNSET)
          || (0 <= readIndex < ring.Length && 0 <= writeIndex < ring.Length))
    }

    /** Bytes between the read and the write index. */
    ghost function Unread(): seq<byte>
      requires Shape()
      reads this, ring
    {
      if readIndex == UNSET then []
      else Slice(ring[..], readIndex, Distance(readIndex, writeIndex, ring.Length))
    }

    /** What was found and what is left over are what feeding the parser event by event gives. */
    ghost predicate Consistent()
      reads this, ring
    {
      Shape() && Parsed(delivered, Unread()) == Feed(chunks)
    }

    /** Where the next byte goes; the first event says so itself. */
    function WriteAt(offset: nat): nat
      requires Shape() && offset < ring.Length
      reads this
    {
      if writeIndex == UNSET then offset else writeIndex
    }

    function Used(): nat
      requires Shape() && readIndex != UNSET
      reads this
    {
      Distance(readIndex, writeIndex, ring.Length)
    }

    function ByteAt(offset: nat): byte
      requires Shape() && readIndex != UNSET && offset < HEADER_SIZE
      reads this, ring
    {
      ring[Index(readIndex + offset, ring.Length)]
    }

    /** The event callback for `len` bytes that DMA has put behind the unread ones. If they overrun the
        ring, what is left of the sum modulo its size is taken for unread. */
    method RxReady(offset: nat, len: nat) returns (ghost found: seq<Message>)
      requires Shape() && offset < ring.Length
      modifies this`readIndex, this`writeIndex, this`queue
      ensures Shape() && readIndex != UNSET
      ensures var start := if old(readIndex) == UNSET then offset else old(readIndex);
              var parsed := Parse(Slice(ring[..], start, Wrapped(|old(Unread())| + len, ring.Length)));
              && Unread() == parsed.rest
              && Locates(ring[..], found, parsed.messages)
              && queue == Enqueue(old(queue), found)
      ensures writeIndex == Wrapped(old(WriteAt(offset)) + len, ring.Length)
    {
      hide Index, Parse, Distance, Locates, Enqueue, Wrapped;
      if readIndex == UNSET && writeIndex == UNSET {
        readIndex := offset;
        writeIndex := offset;
      }
      ghost var used := Used();
      WrapAny(readIndex, used, len, ring.Length);
      writeIndex := Wrapped(writeIndex + len, ring.Length);
      DistanceOfIndex(readIndex, Wrapped(used + len, ring.Length), ring.Length);
      found := DetectMessages();
    }

    /** The loop of the callback: checks new fully-received messages. */
    method DetectMessages() returns (ghost found: seq<Message>)
      requires Shape() && readIndex != UNSET
      modifies this`readIndex, this`queue
      ensures Shape() && readIndex != UNSET
      ensures var parsed := Parse(old(Unread()));
              && Unread() == parsed.rest
              && Locates(ring[..], found, parsed.messages)
              && queue == Enqueue(old(queue), found)
    {
      hide Index, Parse, Look, Slice, Distance, Locates, Enqueue, Word, ByteAt, Prepend;
      ghost var was := queue;
      ghost var whole := Parse(Unread());
      ghost var messages: seq<seq<byte>> := [];
      PrependNothing(whole);
      found := [];
      NothingFound(ring[..], was);
      while readIndex != writeIndex
        invariant Shape() && readIndex != UNSET
        invariant Prepend(messages, Parse(Unread())) == whole
        invariant Locates(ring[..], found, messages)
        invariant queue == Enqueue(was, found)
        decreases |Unread()|
      {
        ghost var s := Unread();
        OneTurn(s, messages);
        var payloadSize := Word(ByteAt(2), ByteAt(3));
        var headerMagic := Word(ByteAt(0), ByteAt(1));
        HeaderInRing(payloadSize, headerMagic);
        if Used() > HEADER_SIZE && headerMagic == MAGIC && Used() >= payloadSize + HEADER_SIZE {
          // all of the payload is there
          assert Look(s) == Emit(payloadSize);
          var message := Message(Index(readIndex + HEADER_SIZE, ring.Length), payloadSize);
          FoundOne(message, s, found, messages, was);
          if |queue| < QUEUE_DEPTH {
            queue := queue + [message];
          }
          Advance(ring[..], readIndex, writeIndex, message.length + HEADER_SIZE);
          readIndex := Index(readIndex + message.length + HEADER_SIZE, ring.Length);
          found := found + [message];
          messages := messages + [s[HEADER_SIZE..HEADER_SIZE + payloadSize]];
        } else if Used() < HEADER_SIZE
                  || (Used() >= HEADER_SIZE && headerMagic == MAGIC && Used() < payloadSize + HEADER_SIZE) {
          // wait for the next event
          assert Look(s) == Wait;
          PrependStops(messages, s);
          return;
        } else {
          // look one byte further
          assert Look(s) == Skip;
          Advance(ring[..], readIndex, writeIndex, 1);
          readIndex := Index(readIndex + 1, ring.Length);
        }
      }
      ParseNothing(Unread());
      PrependStops(messages, []);
    }

    /** DMA writes `chunk` behind the `used` bytes from `start` on. */
    method DmaStore(start: nat, used: nat, chunk: seq<byte>)
      requires start < ring.Length && used + |chunk| < ring.Length
      modifies ring
      ensures Slice(ring[..], start, used + |chunk|) == Slice(old(ring[..]), start, used) + chunk
      ensures ring[..] == Stored(old(ring[..]), Index(start + used, ring.Length), chunk)
    {
      hide Slice, Stored;
      StoredNothing(ring[..], Index(start + used, ring.Length));
      for k := 0 to |chunk|
        invariant Slice(ring[..], start, used + k) == Slice(old(ring[..]), start, used) + chunk[..k]
        invariant ring[..] == Stored(old(ring[..]), Index(start + used, ring.Length), chunk[..k])
      {
        ghost var before := ring[..];
        var at := Index(start + used + k, ring.Length);
        ring[at] := chunk[k];
        AppendByte(before, ring[..], start, used + k, chunk[k]);
        StoredOneMore(old(ring[..]), Index(start + used, ring.Length), chunk[..k], chunk[k]);
        NextIndex(start, used, k, ring.Length);
        assert chunk[..k + 1] == chunk[..k] + [chunk[k]];
      }
      assert chunk[..|chunk|] == chunk;
    }

    /** One RX event: DMA stores `chunk` behind the unread bytes, then the callback runs. Whatever
        the events, the payloads found so far are those of the whole stream, as long as that holds
        no empty one. */
    method Receive(chunk: seq<byte>, offset: nat) returns (ghost found: seq<Message>)
      requires Consistent() && offset < ring.Length
      requires |Unread()| + |chunk| < ring.Length
      modifies this, ring
      ensures Consistent() && chunks == old(chunks) + [chunk]
      ensures [] !in Parse(Concat(chunks)).messages ==> Parsed(delivered, Unread()) == Parse(Concat(chunks))
      ensures delivered[..|old(delivered)|] == old(delivered) && |old(delivered)| <= |delivered|
      ensures Locates(ring[..], found, delivered[|old(delivered)|..])
      ensures queue == Enqueue(old(queue), found)
      ensures var parsed := Parse(old(Unread()) + chunk);
              Unread() == parsed.rest && delivered == old(delivered) + parsed.messages
      // where the bytes went: payloads queued earlier stay until then, see Ring.SliceStaysLong
      ensures ring[..] == Stored(old(ring[..]), old(WriteAt(offset)), chunk)
      ensures writeIndex == Index(old(WriteAt(offset)) + |chunk|, ring.Length)
    {
      hide Parse, Locates, Enqueue, Feed, Slice, Distance, Concat, Stored, Index;
      ghost var parsed := Parse(Unread() + chunk);
      FeedOneMore(chunks, chunk);
      found := Arrive(chunk, offset);
      chunks := chunks + [chunk];
      delivered := delivered + parsed.messages;
      StreamSoFar(chunks);
    }

    method Arrive(chunk: seq<byte>, offset: nat) returns (ghost found: seq<Message>)
      requires Shape() && offset < ring.Length
      requires |Unread()| + |chunk| < ring.Length
      modifies this`readIndex, this`writeIndex, this`queue, ring
      ensures Shape()
      ensures var parsed := Parse(old(Unread()) + chunk);
              && Unread() == parsed.rest
              && Locates(ring[..], found, parsed.messages)
              && queue == Enqueue(old(queue), found)
      ensures ring[..] == Stored(old(ring[..]), old(WriteAt(offset)), chunk)
      ensures writeIndex == Index(old(WriteAt(offset)) + |chunk|, ring.Length)
    {
      hide Parse, Locates, Enqueue, Index, Distance, Slice, Stored, Wrapped;
      var start := if readIndex == UNSET then offset else readIndex;
      var used := if readIndex == UNSET then 0 else Used();
      assert Unread() == Slice(ring[..], start, used);
      DmaStore(start, used, chunk);
      WrapAny(start, used, |chunk|, ring.Length);
      found := RxReady(offset, |chunk|);
    }

    /** The header fields the code reads are the first unread bytes, as far as there are any. */
    lemma HeaderInRing(payloadSize: nat, headerMagic: nat)
      requires Shape() && readIndex != UNSET
      requires payloadSize == Word(ByteAt(2), ByteAt(3)) && headerMagic == Word(ByteAt(0), ByteAt(1))
      ensures |Unread()| == Used()
      ensures var s := Unread();
              s != [] ==>
                Look(s) == if HEADER_SIZE < |s| && headerMagic == MAGIC && payloadSize + HEADER_SIZE <= |s|
                             then Emit(payloadSize)
                           else if |s| < HEADER_SIZE || (headerMagic == MAGIC && |s| < payloadSize + HEADER_SIZE)
                             then Wait
                           else Skip
    {
      hide Index, Look, Word, Slice;
      var s := Unread();
      assert forall i :: 0 <= i < HEADER_SIZE && i < |s| ==> s[i] == ByteAt(i);
      LookAtFields(s, payloadSize, headerMagic);
    }

    /** The queued position names the payload that the parser cuts out of the unread bytes. */
    lemma FoundOne(message: Message, s: seq<byte>, found: seq<Message>, messages: seq<seq<byte>>, was: seq<Message>)
      requires Shape() && readIndex != UNSET && s == Unread() && HEADER_SIZE + message.length <= |s|
      requires message.start == Index(readIndex + HEADER_SIZE, ring.Length)
      requires Locates(ring[..], found, messages) && queue == Enqueue(was, found)
      ensures Locates(ring[..], found + [message], messages + [s[HEADER_SIZE..HEADER_SIZE + message.length]])
      ensures (if |queue| < QUEUE_DEPTH then queue + [message] else queue) == Enqueue(was, found + [message])
    {
      hide Index, Slice;
      SliceOfSlice(ring[..], readIndex, |s|, HEADER_SIZE, message.length);
      assert was + (found + [message]) == was + found + [message];
    }
  }

  lemma LookAtFields(s: seq<byte>, payloadSize: nat, headerMagic: nat)
    requires HEADER_SIZE <= |s| ==> payloadSize == PayloadSize(s) && headerMagic == Word(s[0], s[1])
    ensures Look(s) == if HEADER_SIZE < |s| && headerMagic == MAGIC && payloadSize + HEADER_SIZE <= |s|
                         then Emit(payloadSize)
                       else if |s| < HEADER_SIZE || (headerMagic == MAGIC && |s| < payloadSize + HEADER_SIZE)
                         then Wait
                       else Skip
  {
  }

  lemma FeedOneMore(chunks: seq<seq<byte>>, chunk: seq<byte>)
    ensures var p, all := Feed(chunks), chunks + [chunk];
            Feed(all) == Parsed(p.messages + Parse(p.rest + chunk).messages, Parse(p.rest + chunk).rest)
  {
    assert (chunks + [chunk])[..|chunks|] == chunks;
  }

  lemma StreamSoFar(chunks: seq<seq<byte>>)
    ensures [] !in Parse(Concat(chunks)).messages ==> Feed(chunks) == Parse(Concat(chunks))
  {
    if [] !in Parse(Concat(chunks)).messages {
      FeedIsParse(chunks);
    }
  }

  lemma NothingFound(ring: seq<byte>, queue: seq<Message>)
    requires |queue| <= QUEUE_DEPTH
    ensures Locates(ring, [], []) && Enqueue(queue, []) == queue
  {
    assert queue + [] == queue;
  }

  lemma ParseNothing(s: seq<byte>)
    ensures s == [] ==> Parse(s) == Parsed([], [])
  {
  }

  /** What was found so far, in front of what is still to be found. */
  function Prepend(messages: seq<seq<byte>>, p: Parsed): Parsed {
    Parsed(messages + p.messages, p.rest)
  }

  lemma PrependNothing(p: Parsed)
    ensures Prepend([], p) == p
  {
  }

  lemma PrependStops(messages: seq<seq<byte>>, s: seq<byte>)
    ensures Prepend(messages, Parsed([], s)) == Parsed(messages, s)
  {
  }

  /** One turn of the parser. */
  lemma OneTurn(s: seq<byte>, messages: seq<seq<byte>>)
    requires s != []
    ensures match Look(s)
            case Emit(size) =>
              Prepend(messages, Parse(s))
              == Prepend(messages + [s[HEADER_SIZE..HEADER_SIZE + size]], Parse(s[HEADER_SIZE + size..]))
            case Wait => Parse(s) == Parsed([], s)
            case Skip => Parse(s) == Parse(s[1..])
  {
    hide Look, Parse;
    ParseTurn(s);
    match Look(s)
    case Emit(size) =>
      Associates(messages, [s[HEADER_SIZE..HEADER_SIZE + size]], Parse(s[HEADER_SIZE + size..]).messages);
    case _ =>
  }

  lemma ParseTurn(s: seq<byte>)
    requires s != []
    ensures match Look(s)
            case Emit(size) => Parse(s) == Prepend([s[HEADER_SIZE..HEADER_SIZE + size]], Parse(s[HEADER_SIZE + size..]))
            case Wait => Parse(s) == Parsed([], s)
            case Skip => Parse(s) == Parse(s[1..])
  {
    hide Look;
  }

  lemma Associates<T>(a: seq<T>, b: seq<T>, c: seq<T>)
    ensures a + (b + c) == a + b + c
  {
  }

  lemma AppendByte(before: seq<byte>, after: seq<byte>, start: nat, len: nat, b: byte)
    requires start < |before| && len < |before|
    requires after == before[Index(start + len, |before|) := b]
    ensures Slice(after, start, len + 1) == Slice(before, start, len) + [b]
  {
  }

  lemma DistanceOfIndex(start: nat, used: nat, n: nat)
    requires start < n && used < n
    ensures Distance(start, Index(start + used, n), n) == used
  {
  }

  /** Moving the read index on drops the first unread bytes. */
  lemma Advance(ring: seq<byte>, start: nat, end: nat, k: nat)
    requires start < |ring| && end < |ring| && k <= Distance(start, end, |ring|)
    ensures Distance(Index(start + k, |ring|), end, |ring|) == Distance(start, end, |ring|) - k
    ensures Slice(ring, Index(start + k, |ring|), Distance(start, end, |ring|) - k)
         == Slice(ring, start, Distance(start, end, |ring|))[k..]
  {
    hide Index, Slice;
    var d := Distance(start, end, |ring|);
    SliceOfSlice(ring, start, d, k, d - k);
  }

  /** `buf_read_circular`: copies `count` bytes from ring position `state` on and returns the next
      position. */
  method BufReadCircular(ring: array<byte>, state: nat, buf: array?<byte>, count: nat)
      returns (ok: bool, state': nat)
    requires state < ring.Length && (count < ring.Length || state + count == ring.Length)
    requires buf != null ==> count <= buf.Length && buf != ring
    modifies if buf == null then {} else {buf}
    ensures ok <==> buf != null
    ensures ok ==> state' == Index(state + count, ring.Length)
    ensures ok ==> buf[..count] == Slice(ring[..], state, count) && buf[count..] == old(buf[count..])
    ensures !ok ==> state' == state
  {
    if buf == null {
      return false, state;
    }
    var source, count' := state, count;
    var end := Index(source + count, ring.Length);
    var copyIdx := 0;
    // two pieces if the slice goes past the end of the ring
    if end < source {
      copyIdx := ring.Length - source;
      forall i | 0 <= i < copyIdx {
        buf[i] := ring[source + i];
      }
      source := 0;
      count' := count - copyIdx;
    }
    forall i | 0 <= i < count' {
      buf[copyIdx + i] := ring[source + i];
    }
    ok, state' := true, end;
  }

  /** Successive reads of a queued message return consecutive slices of its payload. */
  lemma ReadsAreConsecutive(ring: seq<byte>, m: Message, done: nat, count: nat)
    requires m.start < |ring| && m.length < |ring| && done + count <= m.length
    ensures Slice(ring, Index(m.start + done, |ring|), count) == Payload(ring, m)[done..done + count]
    ensures Index(Index(m.start + done, |ring|) + count, |ring|) == Index(m.start + done + count, |ring|)
  {
    SliceOfSlice(ring, m.start, m.length, done, count);
  }
}
