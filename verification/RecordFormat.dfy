/** The on-flash format of the storage FIFO: an 8-byte packed header
    (magic, size, CRC, 0xFFFF) followed by the record and 0xFF padding up to the write block. */
module RecordFormat {
  import opened Division
  import opened Bytes
  import opened Crc

  /** Write block sizes that divide the 8-byte header. */
  type BlockSize = b: nat | b == 1 || b == 2 || b == 4 || b == 8 witness 8

  const HEADER: nat := 8
  const RECORD_UNUSED: nat := 0xFFFF
  const RECORD_VALID: nat := 0xFEFE
  const RECORD_INVALID: nat := 0
  const MAX_RECORD: nat := 0xFFFF // largest value of the 16-bit size field

  type Record = seq<byte>

  /** `x % block`. */
  function Rem(block: BlockSize, x: nat): (r: nat)
    ensures r < block && r <= x
  {
    Modulo(x, block)
  }

  predicate Aligned(block: BlockSize, x: nat) { Rem(block, x) == 0 }

  /** Padding that brings `size` to a multiple of the write block. */
  function Padding(block: BlockSize, size: nat): (p: nat)
    ensures p < block && Aligned(block, size + p)
  {
    RoundedUp(block, size);
    if Rem(block, size) == 0 then 0 else block - Rem(block, size)
  }

  /** Bytes a record of `size` bytes occupies, header and padding included. */
  function Span(block: BlockSize, size: nat): nat { HEADER + size + Padding(block, size) }

  datatype Header = Header(magic: nat, size: nat, crc: nat)

  /** The header fields found at `at`. */
  function HeaderAt(mem: seq<byte>, at: nat): Header
    requires at + HEADER <= |mem|
  {
    Header(Word(mem[at], mem[at + 1]), Word(mem[at + 2], mem[at + 3]), Word(mem[at + 4], mem[at + 5]))
  }

  /** A packed header; both fields are truncated to 16 bits as the struct does. */
  function HeaderBytes(size: nat, crc: nat): (s: seq<byte>)
    ensures |s| == HEADER
  {
    U16(RECORD_VALID) + U16(size) + U16(crc) + U16(0xFFFF)
  }

  /** A record followed by its 0xFF padding. */
  function Body(block: BlockSize, r: Record): (s: seq<byte>)
    ensures |s| == |r| + Padding(block, |r|)
  {
    r + Blank(Padding(block, |r|))
  }

  /** All the bytes a push writes for `r`. */
  function Image(block: BlockSize, r: Record): (s: seq<byte>)
    ensures |s| == Span(block, |r|)
  {
    HeaderBytes(|r|, Crc16(CRC16_SEED, r)) + Body(block, r)
  }

  /** A stored record: its header and its bytes are at `at`. */
  ghost predicate RecordAt(block: BlockSize, mem: seq<byte>, at: nat, r: Record) {
    && 0 < |r| <= MAX_RECORD
    && at + Span(block, |r|) <= |mem|
    && HeaderAt(mem, at) == Header(RECORD_VALID, |r|, Crc16(CRC16_SEED, r))
    && mem[at + HEADER..at + Span(block, |r|)] == Body(block, r)
  }

  /** The records `q`, oldest first, fill `[at, end)` back to back. */
  ghost predicate Chain(block: BlockSize, mem: seq<byte>, at: nat, q: seq<Record>, end: nat)
    decreases |q|
  {
    if q == [] then at == end
    else RecordAt(block, mem, at, q[0]) && Chain(block, mem, at + Span(block, |q[0]|), q[1..], end)
  }

  // ---- arithmetic of the write block

  lemma HeaderAligned(block: BlockSize)
    ensures Aligned(block, HEADER) && Aligned(block, 0)
  {
    match block {
      case 1 => assert Rem(1, 8) == 0;
      case 2 => assert Rem(2, 8) == 0;
      case 4 => assert Rem(4, 8) == 0;
      case _ =>
    }
  }

  lemma {:induction false} AddAligned(block: BlockSize, x: nat, y: nat)
    requires Aligned(block, y)
    ensures Rem(block, x + y) == Rem(block, x)
    decreases y
  {
    if block <= y {
      AddAligned(block, x, y - block);
    }
  }

  lemma AlignedAdd(block: BlockSize, x: nat, y: nat)
    requires Aligned(block, x) && Aligned(block, y)
    ensures Aligned(block, x + y) && Aligned(block, HEADER)
  {
    AddAligned(block, x, y);
    HeaderAligned(block);
  }

  lemma AlignedSub(block: BlockSize, x: nat, y: nat)
    requires Aligned(block, x) && Aligned(block, y) && y <= x
    ensures Aligned(block, x - y)
  {
    AddAligned(block, x - y, y);
  }

  lemma {:induction false} RoundedDown(block: BlockSize, x: nat)
    ensures Aligned(block, x - Rem(block, x))
    decreases x
  {
    if block <= x {
      RoundedDown(block, x - block);
    }
  }

  lemma RoundedUp(block: BlockSize, x: nat)
    ensures Aligned(block, x - Rem(block, x) + block)
  {
    RoundedDown(block, x);
  }

  /** Aligned indices are at least a block apart. */
  lemma NextBoundary(block: BlockSize, at: nat, end: nat)
    requires Aligned(block, at) && Aligned(block, end) && at < end
    ensures at + block <= end && Aligned(block, at + block)
  {
    AlignedSub(block, end, at);
  }

  lemma SpanAligned(block: BlockSize, at: nat, size: nat)
    requires Aligned(block, at)
    ensures Aligned(block, at + HEADER) && Aligned(block, at + Span(block, size))
  {
    AlignedAdd(block, at, HEADER);
    AlignedAdd(block, at + HEADER, size + Padding(block, size));
  }

  // ---- chains

  lemma {:induction false} ChainBounds(block: BlockSize, mem: seq<byte>, at: nat, q: seq<Record>, end: nat)
    requires Chain(block, mem, at, q, end) && at <= |mem|
    ensures at <= end <= |mem|
    ensures q != [] ==> at + HEADER < end
    ensures q == [] <==> at == end
    decreases |q|
  {
    if q != [] {
      ChainBounds(block, mem, at + Span(block, |q[0]|), q[1..], end);
    }
  }

  lemma {:induction false} ChainAligned(block: BlockSize, mem: seq<byte>, at: nat, q: seq<Record>, end: nat)
    requires Chain(block, mem, at, q, end) && Aligned(block, at)
    ensures Aligned(block, end)
    decreases |q|
  {
    if q != [] {
      SpanAligned(block, at, |q[0]|);
      ChainAligned(block, mem, at + Span(block, |q[0]|), q[1..], end);
    }
  }

  lemma SpanGrows(block: BlockSize, size: nat)
    ensures HEADER + size <= Span(block, size) < HEADER + size + block
  {
  }

  lemma HeaderFrame(a: seq<byte>, b: seq<byte>, at: nat)
    requires at + HEADER <= |a| && Agree(a, b, at, at + HEADER)
    ensures HeaderAt(a, at) == HeaderAt(b, at)
  {
  }

  lemma RecordFrame(block: BlockSize, a: seq<byte>, b: seq<byte>, at: nat, r: Record)
    requires RecordAt(block, a, at, r) && Agree(a, b, at, at + Span(block, |r|))
    ensures RecordAt(block, b, at, r)
  {
    AgreeSlice(a, b, at + HEADER, at + Span(block, |r|));
  }

  /** A chain depends only on the bytes it fills. */
  lemma {:induction false} ChainFrame(block: BlockSize, a: seq<byte>, b: seq<byte>, at: nat, q: seq<Record>, end: nat)
    requires Chain(block, a, at, q, end) && at <= |a| && Agree(a, b, at, end)
    ensures Chain(block, b, at, q, end)
    decreases |q|
  {
    if q != [] {
      var next := at + Span(block, |q[0]|);
      ChainBounds(block, a, next, q[1..], end);
      RecordFrame(block, a, b, at, q[0]);
      ChainFrame(block, a, b, next, q[1..], end);
    }
  }

  /** The bytes of a stored record, without its padding. */
  lemma RecordBytes(block: BlockSize, mem: seq<byte>, at: nat, r: Record)
    requires RecordAt(block, mem, at, r)
    ensures mem[at + HEADER..at + HEADER + |r|] == r
  {
    var body := mem[at + HEADER..at + Span(block, |r|)];
    assert body[..|r|] == r;
    assert mem[at + HEADER..at + HEADER + |r|] == body[..|r|];
  }

  lemma RecordUnique(block: BlockSize, mem: seq<byte>, at: nat, p: Record, q: Record)
    requires RecordAt(block, mem, at, p) && RecordAt(block, mem, at, q)
    ensures p == q
  {
    RecordBytes(block, mem, at, p);
    RecordBytes(block, mem, at, q);
  }

  /** The bytes and the two indices determine the queue. */
  lemma {:induction false} ChainUnique(block: BlockSize, mem: seq<byte>, at: nat,
                                       p: seq<Record>, q: seq<Record>, end: nat)
    requires at <= |mem| && Chain(block, mem, at, p, end) && Chain(block, mem, at, q, end)
    ensures p == q
    decreases |p|
  {
    hide Crc16, HeaderAt, Body, Span;
    ChainBounds(block, mem, at, p, end);
    ChainBounds(block, mem, at, q, end);
    if p != [] {
      RecordUnique(block, mem, at, p[0], q[0]);
      ChainUnique(block, mem, at + Span(block, |p[0]|), p[1..], q[1..], end);
      assert p == [p[0]] + p[1..] && q == [q[0]] + q[1..];
    }
  }

  /** The three fields of a header survive its bytes, as far as 16 bits hold them. */
  lemma HeaderRoundTrip(mem: seq<byte>, at: nat, size: nat, crc: nat)
    requires at + HEADER <= |mem| && size <= MAX_RECORD && crc <= 0xFFFF
    requires forall i :: 0 <= i < HEADER ==> mem[at + i] == HeaderBytes(size, crc)[i]
    ensures HeaderAt(mem, at) == Header(RECORD_VALID, size, crc)
  {
    hide Word, Low, High;
    WordOfU16(RECORD_VALID);
    WordOfU16(size);
    WordOfU16(crc);
    var h := HeaderBytes(size, crc);
    assert h[0] == U16(RECORD_VALID)[0] && h[1] == U16(RECORD_VALID)[1];
    assert h[2] == U16(size)[0] && h[3] == U16(size)[1];
    assert h[4] == U16(crc)[0] && h[5] == U16(crc)[1];
    assert mem[at + 0] == h[0] && mem[at + 1] == h[1] && mem[at + 2] == h[2];
    assert mem[at + 3] == h[3] && mem[at + 4] == h[4] && mem[at + 5] == h[5];
  }

  /** What a push writes is a record, provided its size fits the 16-bit field. */
  lemma ImageIsRecord(block: BlockSize, mem: seq<byte>, at: nat, r: Record)
    requires 0 < |r| <= MAX_RECORD && at + Span(block, |r|) <= |mem|
    ensures RecordAt(block, Overlay(mem, at, Image(block, r)), at, r)
  {
    var image := Image(block, r);
    var m := Overlay(mem, at, image);
    assert forall i :: 0 <= i < |Body(block, r)| ==> image[HEADER + i] == Body(block, r)[i];
    assert m[at + HEADER..at + Span(block, |r|)] == Body(block, r);
    HeaderRoundTrip(m, at, |r|, Crc16(CRC16_SEED, r));
  }

  lemma {:induction false} ChainMember(block: BlockSize, mem: seq<byte>, at: nat, q: seq<Record>, end: nat, i: nat)
    requires Chain(block, mem, at, q, end) && i < |q|
    ensures 0 < |q[i]| <= MAX_RECORD
    decreases |q|
  {
    if 0 < i {
      ChainMember(block, mem, at + Span(block, |q[0]|), q[1..], end, i - 1);
    }
  }

  lemma {:induction false} ChainAppend(block: BlockSize, mem: seq<byte>, at: nat, q: seq<Record>, end: nat, r: Record)
    requires Chain(block, mem, at, q, end) && RecordAt(block, mem, end, r)
    ensures Chain(block, mem, at, q + [r], end + Span(block, |r|))
    decreases |q|
  {
    hide RecordAt, Span;
    if q == [] {
      assert (q + [r])[1..] == [];
    } else {
      assert (q + [r])[1..] == q[1..] + [r] && (q + [r])[0] == q[0];
      ChainAppend(block, mem, at + Span(block, |q[0]|), q[1..], end, r);
    }
  }
}
