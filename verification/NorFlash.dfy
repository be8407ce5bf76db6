/** A push on serial NOR flash, which is written byte by byte and refuses nothing: programming clears bits,
    so what is in flash afterwards is the old byte and the new one, bit by bit. Here the read-back of the
    push decides. */
module NorFlash {
  import opened Division
  import opened Bytes
  import opened Crc
  import opened CrcRemainder
  import opened RecordFormat
  import opened Recovery
  import opened Fifo
  import opened PushOnFlash
  import opened Errors

  /** The lowest `n` bits that are one in both. */
  function And(a: nat, b: nat, n: nat): (c: nat)
    ensures c < Exp2(n)
    decreases n
  {
    if n == 0 then 0
    else
      (if Modulo(a, 2) == 1 && Modulo(b, 2) == 1 then 1 else 0) + 2 * And(Quotient(a, 2), Quotient(b, 2), n - 1)
  }

  function AndByte(a: byte, b: byte): byte {
    EightBits();
    And(a, b, 8)
  }

  /** Bit for bit. */
  lemma {:induction false} AndBits(a: nat, b: nat, n: nat, j: nat)
    requires j < n
    ensures And(a, b, n) / Exp2(j) % 2 == 1 <==> a / Exp2(j) % 2 == 1 && b / Exp2(j) % 2 == 1
    decreases n
  {
    DivisionIs(a, 2);
    DivisionIs(b, 2);
    var c, rest := And(a, b, n), And(a / 2, b / 2, n - 1);
    assert c == (if a % 2 == 1 && b % 2 == 1 then 1 else 0) + 2 * rest;
    if j > 0 {
      AndBits(a / 2, b / 2, n - 1, j - 1);
      HalfBit(a, Exp2(j - 1));
      HalfBit(b, Exp2(j - 1));
      HalfBit(c, Exp2(j - 1));
      assert c / 2 == rest;
    } else {
      assert Exp2(0) == 1;
    }
  }

  lemma EightBits()
    ensures Exp2(8) == 0x100
  {
  }

  /** Programming ones changes nothing of what is there; programming over ones leaves what is written. */
  lemma {:induction false} AndOnes(b: nat, n: nat)
    requires b < Exp2(n)
    ensures And(Exp2(n) - 1, b, n) == b
    decreases n
  {
    if n > 0 {
      Halves(Exp2(n) - 1, Exp2(n - 1) - 1, 1);
      DivisionIs(b, 2);
      Halves(b, b / 2, b % 2);
      AndOnes(b / 2, n - 1);
    }
  }

  lemma Halves(x: nat, q: nat, r: nat)
    requires x == 2 * q + r && r < 2
    ensures Quotient(x, 2) == q && Modulo(x, 2) == r
  {
    hide Quotient, Modulo;
    DivisionIs(x, 2);
  }

  lemma AndErased(b: byte)
    ensures AndByte(ERASED, b) == b
  {
    EightBits();
    AndOnes(b, 8);
  }

  function AndAll(before: seq<byte>, data: seq<byte>): (s: seq<byte>)
    requires |before| == |data|
    ensures |s| == |data|
  {
    seq(|data|, i requires 0 <= i < |data| => AndByte(before[i], data[i]))
  }

  /** What is in flash after `data` was programmed at `off`. */
  function Programmed(mem: seq<byte>, off: nat, data: seq<byte>): (m: seq<byte>)
    requires off + |data| <= |mem|
    ensures |m| == |mem|
  {
    Overlay(mem, off, AndAll(mem[off..off + |data|], data))
  }

  lemma OverErased(mem: seq<byte>, off: nat, data: seq<byte>)
    requires off + |data| <= |mem| && IsErased(mem, off, off + |data|)
    ensures Programmed(mem, off, data) == Overlay(mem, off, data)
  {
    var before := mem[off..off + |data|];
    forall i | 0 <= i < |data| ensures AndByte(before[i], data[i]) == data[i] {
      AndErased(data[i]);
    }
    assert AndAll(before, data) == data;
  }

  /** The record that reads back after its bytes were programmed. */
  function ReadsBackAs(d: Disk, r: Record): (s: Record)
    requires d.wr + HEADER + |r| <= |d.mem|
    ensures |s| == |r|
  {
    AndAll(d.mem[d.wr + HEADER..d.wr + HEADER + |r|], r)
  }

  /** `storage_push` of a record that fits, with blocks of one byte and so without padding. */
  function NorPush(d: Disk, r: Record): (Disk, Ret)
    requires d.wr + HEADER + |r| <= |d.mem|
  {
    var m := Programmed(d.mem, d.wr + HEADER, r);
    if Crc16(CRC16_SEED, m[d.wr + HEADER..d.wr + HEADER + |r|]) != Crc16(CRC16_SEED, r)
      then (Reset(|d.mem|), InvalidState)
    else (Disk(Programmed(m, d.wr, PushHeader(r)), d.rd, d.wr + HEADER + |r|), Success)
  }

  lemma NoPadding(r: Record)
    ensures Span(1, |r|) == HEADER + |r| && Body(1, r) == r
  {
    assert Rem(1, |r|) == 0;
  }

  lemma PushedBytes(d: Disk, s: Record)
    requires d.wr + HEADER + |s| <= |d.mem|
    ensures Fits(1, d, |s|)
    ensures Pushed(1, d, s) == Disk(Overlay(d.mem, d.wr, PushHeader(s) + s), d.rd, d.wr + HEADER + |s|)
  {
    hide Image, Body, PushHeader, Overlay, Padding;
    NoPadding(s);
    ImageParts(1, s);
  }

  lemma SameHeader(r: Record, s: Record)
    requires |r| == |s| && Crc16(CRC16_SEED, s) == Crc16(CRC16_SEED, r)
    ensures PushHeader(s) == PushHeader(r)
  {
  }

  lemma AfterNorPush(d: Disk, r: Record)
    requires d.wr + HEADER + |r| <= |d.mem| && IsErased(d.mem, d.wr, d.wr + HEADER)
    ensures Fits(1, d, |r|) && |ReadsBackAs(d, r)| == |r|
    ensures var s := ReadsBackAs(d, r);
            NorPush(d, r) == if Crc16(CRC16_SEED, s) == Crc16(CRC16_SEED, r) then (Pushed(1, d, s), Success)
                             else (Reset(|d.mem|), InvalidState)
  {
    hide Crc16, PushHeader, Reset, Overlay, Span, Pushed, Fits, Programmed, ReadsBackAs;
    var s, at := ReadsBackAs(d, r), d.wr + HEADER;
    PushedBytes(d, s);
    var m := Programmed(d.mem, at, r);
    ProgrammedBody(d, r);
    OverlaidSlice(d.mem, at, s);
    if Crc16(CRC16_SEED, s) == Crc16(CRC16_SEED, r) {
      SameHeader(r, s);
      StillErased(d.mem, d.wr, s);
      OverErased(m, d.wr, PushHeader(r));
      HeaderOverBody(d.mem, d.wr, PushHeader(s), s);
    }
  }

  lemma ProgrammedBody(d: Disk, r: Record)
    requires d.wr + HEADER + |r| <= |d.mem|
    ensures Programmed(d.mem, d.wr + HEADER, r) == Overlay(d.mem, d.wr + HEADER, ReadsBackAs(d, r))
  {
    hide AndAll, Overlay;
  }

  lemma OverlaidSlice(mem: seq<byte>, at: nat, s: seq<byte>)
    requires at + |s| <= |mem|
    ensures Overlay(mem, at, s)[at..at + |s|] == s
  {
  }

  lemma StillErased(mem: seq<byte>, at: nat, s: seq<byte>)
    requires at + HEADER + |s| <= |mem| && IsErased(mem, at, at + HEADER)
    ensures IsErased(Overlay(mem, at + HEADER, s), at, at + HEADER)
  {
  }

  /** Exactly what a push does whatever lies behind the header slot: the record that reads back is appended if
      and only if its CRC is that of the record to be stored, else the area is erased. So a record can be
      accepted and stored as another one, and that happens exactly when the two differ with equal CRCs. */
  lemma NorPushExactly(d: Disk, q: seq<Record>, r: Record)
    requires Laid(1, d.mem, d.rd, q, d.wr) && 0 < |r| <= MAX_RECORD && d.wr + HEADER + |r| <= |d.mem|
    requires IsErased(d.mem, d.wr, d.wr + HEADER)
    ensures var (d', ret), s := NorPush(d, r), ReadsBackAs(d, r);
            if Crc16(CRC16_SEED, s) == Crc16(CRC16_SEED, r)
              then && ret == Success && Laid(1, d'.mem, d'.rd, q + [s], d'.wr)
                   && (Laid(1, d'.mem, d'.rd, q + [r], d'.wr) <==> s == r)
            else ret == InvalidState && d' == Reset(|d.mem|)
  {
    hide Crc16, NorPush, Pushed, Reset, Laid, Fits;
    AfterNorPush(d, r);
    var s := ReadsBackAs(d, r);
    if Crc16(CRC16_SEED, s) == Crc16(CRC16_SEED, r) {
      PushLaid(1, d, q, s);
      var d' := NorPush(d, r).0;
      if Laid(1, d'.mem, d'.rd, q + [r], d'.wr) {
        SameQueue(1, d', q + [r], q + [s]);
        assert (q + [r])[|q|] == (q + [s])[|q|];
      }
    }
  }

  lemma SameQueue(block: BlockSize, d: Disk, p: seq<Record>, q: seq<Record>)
    requires Laid(block, d.mem, d.rd, p, d.wr) && Laid(block, d.mem, d.rd, q, d.wr)
    ensures p == q
  {
    hide Chain, Rem;
    ChainUnique(block, d.mem, d.rd, p, q, d.wr);
  }

  /** In front of an erased tail a push appends, as on flash that refuses. */
  lemma NorPushAppends(d: Disk, q: seq<Record>, r: Record)
    requires Holds(1, d, q) && 0 < |r| <= MAX_RECORD && Fits(1, d, |r|)
    ensures d.wr + HEADER + |r| <= |d.mem|
    ensures NorPush(d, r) == (Pushed(1, d, r), Success) == DevicePush(1, d, r)
  {
    hide Crc16, NorPush, Pushed, Reset, Holds, Span, PushAccepted;
    NoPadding(r);
    TailErased(1, d, q);
    AfterNorPush(d, r);
    OverErased(d.mem, d.wr + HEADER, r);
    ErasedReadsBack(d, r);
    HoldsAccepted(1, d, q, r);
  }

  lemma ErasedReadsBack(d: Disk, r: Record)
    requires d.wr + HEADER + |r| <= |d.mem| && IsErased(d.mem, d.wr + HEADER, d.wr + HEADER + |r|)
    ensures ReadsBackAs(d, r) == r
  {
    hide AndByte;
    var before := d.mem[d.wr + HEADER..d.wr + HEADER + |r|];
    forall i | 0 <= i < |r| ensures AndByte(before[i], r[i]) == r[i] {
      AndErased(r[i]);
    }
  }
}
