/** UART framing as a parser on byte strings: 0x8E 0xAD, payload length (little endian), payload. */
module UartParser {
  import opened Bytes

  const HEADER_SIZE: nat := 4
  const MAGIC: nat := 0xAD8E

  /** What one turn of the receive loop does with the unread bytes. */
  datatype Turn = Emit(size: nat) | Wait | Skip

  predicate MagicFirst(s: seq<byte>)
    requires 2 <= |s|
  {
    Word(s[0], s[1]) == MAGIC
  }

  function PayloadSize(s: seq<byte>): nat
    requires HEADER_SIZE <= |s|
  {
    Word(s[2], s[3])
  }

  function Look(s: seq<byte>): (t: Turn)
    ensures t.Emit? ==> HEADER_SIZE + t.size <= |s|
  {
    if HEADER_SIZE < |s| && MagicFirst(s) && PayloadSize(s) + HEADER_SIZE <= |s| then Emit(PayloadSize(s))
    else if |s| < HEADER_SIZE || (MagicFirst(s) && |s| < PayloadSize(s) + HEADER_SIZE) then Wait
    else Skip
  }

  /** The payloads found, and the bytes that wait for more. */
  datatype Parsed = Parsed(messages: seq<seq<byte>>, rest: seq<byte>)

  function Parse(s: seq<byte>): Parsed
    decreases |s|
  {
    if s == [] then Parsed([], [])
    else
      match Look(s)
      case Emit(size) =>
        var p := Parse(s[HEADER_SIZE + size..]);
        Parsed([s[HEADER_SIZE..HEADER_SIZE + size]] + p.messages, p.rest)
      case Wait => Parsed([], s)
      case Skip => Parse(s[1..])
  }

  /** Parsing as the bytes come in: each event parses what was left over plus the new bytes. */
  function Feed(chunks: seq<seq<byte>>): Parsed {
    if chunks == [] then Parsed([], [])
    else
      var p := Feed(chunks[..|chunks| - 1]);
      var q := Parse(p.rest + chunks[|chunks| - 1]);
      Parsed(p.messages + q.messages, q.rest)
  }

  /** The messages do not depend on how the stream was cut. */
  ghost predicate ChunkIndependent(s: seq<byte>) {
    forall chunks: seq<seq<byte>> :: Concat(chunks) == s ==> Feed(chunks) == Parse(s)
  }

  // ---- parsing in two parts

  /** Left-over bytes yield nothing on their own. */
  lemma {:induction false} RestIsStable(s: seq<byte>)
    ensures Parse(Parse(s).rest) == Parsed([], Parse(s).rest)
    decreases |s|
  {
    if s != [] {
      match Look(s)
      case Emit(size) => RestIsStable(s[HEADER_SIZE + size..]);
      case Wait =>
      case Skip => RestIsStable(s[1..]);
    }
  }

  /** More bytes behind do not change a turn, unless a header announces an empty payload and the
      bytes end right behind it. */
  lemma LookAhead(a: seq<byte>, b: seq<byte>)
    requires a != [] && !Look(a).Wait?
    ensures Look(a + b) == Look(a)
         || (|a| == HEADER_SIZE && MagicFirst(a) && PayloadSize(a) == 0 && b != [] && Look(a + b) == Emit(0))
  {
    if HEADER_SIZE <= |a| {
      assert (a + b)[0] == a[0] && (a + b)[1] == a[1] && (a + b)[2] == a[2] && (a + b)[3] == a[3];
    }
  }

  lemma MessagesBehind(s: seq<byte>)
    requires s != [] && Look(s).Emit?
    ensures forall m :: m in Parse(s[HEADER_SIZE + Look(s).size..]).messages ==> m in Parse(s).messages
  {
  }

  lemma EmptyPayloadIsEmitted(s: seq<byte>)
    ensures s != [] && Look(s) == Emit(0) ==> [] in Parse(s).messages
  {
    if s != [] && Look(s) == Emit(0) {
      assert Parse(s).messages[0] == [];
    }
  }

  lemma {:induction false} ParseInTwo(a: seq<byte>, b: seq<byte>)
    requires [] !in Parse(a + b).messages
    ensures var p, q := Parse(a), Parse(Parse(a).rest + b);
            Parse(a + b) == Parsed(p.messages + q.messages, q.rest)
    decreases |a|
  {
    hide Look;
    if a == [] {
      assert a + b == b && Parse(a).rest + b == b;
    } else {
      match Look(a)
      case Wait =>
      case Emit(size) =>
        LookAhead(a, b);
        var step := HEADER_SIZE + size;
        assert (a + b)[step..] == a[step..] + b && (a + b)[HEADER_SIZE..step] == a[HEADER_SIZE..step];
        MessagesBehind(a + b);
        ParseInTwo(a[step..], b);
        assert [a[HEADER_SIZE..step]] + (Parse(a[step..]).messages + Parse(Parse(a).rest + b).messages)
            == [a[HEADER_SIZE..step]] + Parse(a[step..]).messages + Parse(Parse(a).rest + b).messages;
      case Skip =>
        LookAhead(a, b);
        EmptyPayloadIsEmitted(a + b);
        assert (a + b)[1..] == a[1..] + b;
        ParseInTwo(a[1..], b);
    }
  }

  // ---- chunk independence

  lemma {:induction false} FeedIsParse(chunks: seq<seq<byte>>)
    requires [] !in Parse(Concat(chunks)).messages
    ensures Feed(chunks) == Parse(Concat(chunks))
    decreases |chunks|
  {
    if chunks != [] {
      var front, last := chunks[..|chunks| - 1], chunks[|chunks| - 1];
      ParseInTwo(Concat(front), last);
      assert forall m :: m in Parse(Concat(front)).messages ==> m in Parse(Concat(chunks)).messages;
      FeedIsParse(front);
    }
  }

  /** One byte per event. */
  function Bytewise(s: seq<byte>): seq<seq<byte>> {
    if s == [] then [] else Bytewise(s[..|s| - 1]) + [[s[|s| - 1]]]
  }

  lemma {:induction false} BytewiseConcat(s: seq<byte>)
    ensures Concat(Bytewise(s)) == s
    decreases |s|
  {
    if s != [] {
      BytewiseConcat(s[..|s| - 1]);
      assert Bytewise(s)[..|Bytewise(s)| - 1] == Bytewise(s[..|s| - 1]);
      assert s == s[..|s| - 1] + [s[|s| - 1]];
    }
  }

  /** One more byte on top of waiting bytes never completes an empty payload. */
  lemma OneMoreByte(rest: seq<byte>, b: byte)
    requires Parse(rest) == Parsed([], rest)
    ensures [] !in Parse(rest + [b]).messages
  {
    var s := rest + [b];
    if |s| <= HEADER_SIZE {
      ShortParse(s);
    } else {
      assert Look(rest) == Wait by { WaitingRest(rest); }
      assert s[0] == rest[0] && s[1] == rest[1] && s[2] == rest[2] && s[3] == rest[3];
      match Look(s)
      case Emit(size) =>
        assert s[HEADER_SIZE + size..] == [];
      case _ =>
    }
  }

  lemma {:induction false} ShortParse(s: seq<byte>)
    requires |s| <= HEADER_SIZE
    ensures Parse(s).messages == []
    decreases |s|
  {
    if s != [] && Look(s) == Skip {
      ShortParse(s[1..]);
    }
  }

  lemma {:induction false} RestNoLonger(s: seq<byte>)
    ensures |Parse(s).rest| <= |s|
    decreases |s|
  {
    if s != [] {
      match Look(s)
      case Emit(size) => RestNoLonger(s[HEADER_SIZE + size..]);
      case Wait =>
      case Skip => RestNoLonger(s[1..]);
    }
  }

  lemma WaitingRest(rest: seq<byte>)
    requires rest != [] && Parse(rest) == Parsed([], rest)
    ensures Look(rest) == Wait
  {
    if Look(rest) == Skip {
      RestNoLonger(rest[1..]);
    }
  }

  lemma {:induction false} BytewiseHasNoEmpty(s: seq<byte>)
    ensures [] !in Feed(Bytewise(s)).messages
    ensures Parse(Feed(Bytewise(s)).rest) == Parsed([], Feed(Bytewise(s)).rest)
    decreases |s|
  {
    if s != [] {
      var front := s[..|s| - 1];
      BytewiseHasNoEmpty(front);
      assert Bytewise(s)[..|Bytewise(s)| - 1] == Bytewise(front);
      OneMoreByte(Feed(Bytewise(front)).rest, s[|s| - 1]);
      RestIsStable(Feed(Bytewise(front)).rest + [s[|s| - 1]]);
    }
  }

  /** The messages of a stream are the same for every way of cutting it exactly when the stream
      parsed whole yields no empty message. */
  lemma ChunkIndependence(s: seq<byte>)
    ensures ChunkIndependent(s) <==> [] !in Parse(s).messages
  {
    if ChunkIndependent(s) {
      BytewiseConcat(s);
      BytewiseHasNoEmpty(s);
      assert Feed(Bytewise(s)) == Parse(s);
    }
    if [] !in Parse(s).messages {
      forall chunks: seq<seq<byte>> | Concat(chunks) == s
        ensures Feed(chunks) == Parse(s)
      {
        FeedIsParse(chunks);
      }
    }
  }

  // ---- round trip

  /** A payload as the sender frames it. */
  function Frame(payload: seq<byte>): seq<byte> {
    U16(MAGIC) + U16(|payload|) + payload
  }

  ghost predicate Sendable(payload: seq<byte>) { 0 < |payload| <= 0xFFFF }

  function Frames(payloads: seq<seq<byte>>): seq<byte> {
    if payloads == [] then [] else Frame(payloads[0]) + Frames(payloads[1..])
  }

  lemma FrameFirst(payload: seq<byte>, more: seq<byte>)
    requires Sendable(payload)
    ensures var s := Frame(payload) + more;
            && Look(s) == Emit(|payload|)
            && s[HEADER_SIZE..HEADER_SIZE + |payload|] == payload
            && s[HEADER_SIZE + |payload|..] == more
  {
    hide Word, Low, High;
    var s := Frame(payload) + more;
    WordOfU16(MAGIC);
    WordOfU16(|payload|);
    assert s[0] == U16(MAGIC)[0] && s[1] == U16(MAGIC)[1];
    assert s[2] == U16(|payload|)[0] && s[3] == U16(|payload|)[1];
  }

  /** Parsing framed payloads yields the payloads. */
  lemma {:induction false} RoundTrip(payloads: seq<seq<byte>>)
    requires forall p :: p in payloads ==> Sendable(p)
    ensures Parse(Frames(payloads)) == Parsed(payloads, [])
    decreases |payloads|
  {
    if payloads != [] {
      FrameFirst(payloads[0], Frames(payloads[1..]));
      RoundTrip(payloads[1..]);
    }
  }

  /** ... however the stream is cut on the way. */
  lemma RoundTripInChunks(payloads: seq<seq<byte>>, chunks: seq<seq<byte>>)
    requires forall p :: p in payloads ==> Sendable(p)
    requires Concat(chunks) == Frames(payloads)
    ensures Feed(chunks) == Parsed(payloads, [])
  {
    RoundTrip(payloads);
    FeedIsParse(chunks);
  }

  /** Bytes that do not look like a magic are passed over one by one: what follows them is found where it
      begins. */
  lemma {:induction false} NoiseIsSkipped(noise: seq<byte>, s: seq<byte>)
    requires 4 <= |s|
    requires forall i :: 0 <= i < |noise| ==> !((noise + s)[i] == 0x8E && (noise + s)[i + 1] == 0xAD)
    ensures Parse(noise + s) == Parse(s)
    decreases |noise|
  {
    hide Word;
    var t := noise + s;
    if noise == [] {
      assert t == s;
    } else {
      assert t[1..] == noise[1..] + s;
      forall i | 0 <= i < |noise[1..]|
        ensures !((noise[1..] + s)[i] == 0x8E && (noise[1..] + s)[i + 1] == 0xAD)
      {
        assert (noise[1..] + s)[i] == t[i + 1] && (noise[1..] + s)[i + 1] == t[i + 2];
      }
      NoMagic(t[0], t[1]);
      assert Look(t) == Skip;
      NoiseIsSkipped(noise[1..], s);
    }
  }

  lemma NoMagic(lo: byte, hi: byte)
    ensures Word(lo, hi) == MAGIC <==> lo == 0x8E && hi == 0xAD
  {
    WordIs(lo, hi);
  }

  // ---- senders of empty payloads

  /** A header that announces an empty payload and one more byte: cut behind the header it yields
      nothing, whole it yields an empty message. */
  lemma CutBehindHeader()
    ensures !ChunkIndependent([0x8E, 0xAD, 0, 0, 1])
  {
    hide Parse, Feed, Concat, ChunkIndependent;
    var s: seq<byte> := [0x8E, 0xAD, 0, 0, 1];
    WordIs(0x8E, 0xAD);
    assert Look(s) == Emit(0);
    EmptyPayloadIsEmitted(s);
    ChunkIndependence(s);
  }

  ghost predicate Framed(payloads: seq<seq<byte>>) {
    forall i :: 0 <= i < |payloads| ==> |payloads[i]| <= 0xFFFF
  }

  /** No payload but the last is empty. */
  ghost predicate OnlyLastEmpty(payloads: seq<seq<byte>>) {
    forall i :: 0 <= i < |payloads| - 1 ==> payloads[i] != []
  }

  /** For a sender of payloads that a header can announce, the cuts do not matter exactly if no payload
      but the last is empty. */
  lemma SenderIndependence(payloads: seq<seq<byte>>)
    requires Framed(payloads)
    ensures ChunkIndependent(Frames(payloads)) <==> OnlyLastEmpty(payloads)
  {
    ChunkIndependence(Frames(payloads));
    EmptyMessages(payloads);
  }

  lemma {:induction false} EmptyMessages(payloads: seq<seq<byte>>)
    requires Framed(payloads)
    ensures [] in Parse(Frames(payloads)).messages <==> !OnlyLastEmpty(payloads)
    decreases |payloads|
  {
    hide Parse, Look, Frame, OnlyLastEmpty, Framed;
    if payloads == [] {
      NothingFramed();
    } else {
      var first, more := payloads[0], payloads[1..];
      SplitFrames(payloads);
      EmptyMessages(more);
      if first != [] {
        FirstMessage(first, Frames(more));
        FirstNonEmpty(payloads);
      } else if more == [] {
        LoneEmptyFrame(payloads);
      } else {
        EmptyFrameFirst(Frames(more));
        MoreFrames(more);
        EmptyInFront(payloads);
      }
    }
  }

  lemma NothingFramed()
    ensures Parse(Frames([])).messages == [] && OnlyLastEmpty([])
  {
  }

  lemma SplitFrames(payloads: seq<seq<byte>>)
    requires Framed(payloads) && payloads != []
    ensures Frames(payloads) == Frame(payloads[0]) + Frames(payloads[1..])
    ensures Framed(payloads[1..]) && |payloads[0]| <= 0xFFFF
  {
  }

  lemma FirstMessage(first: seq<byte>, more: seq<byte>)
    requires Sendable(first)
    ensures Parse(Frame(first) + more).messages == [first] + Parse(more).messages
  {
    FrameFirst(first, more);
    hide Look, Frame;
  }

  lemma EmptyInFront(payloads: seq<seq<byte>>)
    requires |payloads| > 1 && payloads[0] == []
    ensures !OnlyLastEmpty(payloads)
  {
  }

  lemma FirstNonEmpty(payloads: seq<seq<byte>>)
    requires payloads != [] && payloads[0] != []
    ensures OnlyLastEmpty(payloads) <==> OnlyLastEmpty(payloads[1..])
  {
    if OnlyLastEmpty(payloads[1..]) {
      forall i | 0 <= i < |payloads| - 1 ensures payloads[i] != [] {
        assert i > 0 ==> payloads[i] == payloads[1..][i - 1];
      }
    }
  }

  lemma MoreFrames(payloads: seq<seq<byte>>)
    requires payloads != []
    ensures |Frames(payloads)| >= HEADER_SIZE
  {
  }

  lemma LoneEmptyFrame(payloads: seq<seq<byte>>)
    requires |payloads| == 1 && payloads[0] == []
    ensures Parse(Frames(payloads)).messages == [] && OnlyLastEmpty(payloads)
  {
    assert Frames(payloads) == Frame([]);
    hide Parse;
    ShortParse(Frame([]));
  }

  lemma EmptyFrameFirst(more: seq<byte>)
    ensures more != [] ==> [] in Parse(Frame([]) + more).messages
  {
    hide Word, Low, High, Parse;
    var s := Frame([]) + more;
    WordOfU16(MAGIC);
    WordOfU16(0);
    EmptyPayloadIsEmitted(s);
  }
}
