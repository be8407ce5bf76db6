/** Bytes, little-endian 16-bit words and the overlay that an in-place write produces. */
module Bytes {
  import opened Division

  type byte = b: int | 0 <= b < 0x100

  const ERASED: byte := 0xFF

  function Low(w: nat): byte { Modulo(w, 0x100) }

  function High(w: nat): byte { Modulo(Quotient(w, 0x100), 0x100) }

  /** A packed `uint16_t` field as the MCU stores it. */
  function U16(w: nat): seq<byte> { [Low(w), High(w)] }

  function Word(lo: byte, hi: byte): (w: nat)
    ensures w < 0x1_0000
    ensures w == 0xFFFF <==> lo == ERASED && hi == ERASED
  {
    MultipleIs(hi, 0x100);
    lo + Multiple(hi, 0x100)
  }

  /** Two bytes as a number, in ordinary arithmetic: what `Word` is compared with. */
  function Number(lo: nat, hi: nat): nat { lo + 0x100 * hi }

  lemma WordIs(lo: byte, hi: byte)
    ensures Word(lo, hi) == Number(lo, hi)
  {
    MultipleIs(hi, 0x100);
  }

  lemma WordBytes(a: byte, b: byte, c: byte, d: byte)
    requires Word(a, b) == Word(c, d)
    ensures a == c && b == d
  {
    WordIs(a, b);
    WordIs(c, d);
  }

  lemma LowHigh(w: nat)
    ensures Low(w) == w % 0x100 && High(w) == w / 0x100 % 0x100
  {
    DivisionIs(w, 0x100);
    DivisionIs(Quotient(w, 0x100), 0x100);
  }

  /** A 16-bit field survives its two bytes. */
  lemma WordOfU16(w: nat)
    requires w < 0x1_0000
    ensures Word(U16(w)[0], U16(w)[1]) == w
  {
    hide Word, Low, High;
    WordIs(Low(w), High(w));
    LowHigh(w);
  }

  /** `n` erased bytes. */
  function Blank(n: nat): (s: seq<byte>)
    ensures |s| == n && forall i :: 0 <= i < n ==> s[i] == ERASED
  {
    seq(n, i => ERASED)
  }

  /** `mem` with `data` written over it from offset `off` on. */
  function Overlay(mem: seq<byte>, off: nat, data: seq<byte>): (r: seq<byte>)
    requires off + |data| <= |mem|
    ensures |r| == |mem|
    ensures forall i :: 0 <= i < |mem| ==> r[i] == if off <= i < off + |data| then data[i - off] else mem[i]
  {
    seq(|mem|, i requires 0 <= i < |mem| => if off <= i < off + |data| then data[i - off] else mem[i])
  }

  /** Pieces of a byte string put together again. */
  function Concat(chunks: seq<seq<byte>>): seq<byte> {
    if chunks == [] then [] else Concat(chunks[..|chunks| - 1]) + chunks[|chunks| - 1]
  }

  lemma ConcatOneMore(chunks: seq<seq<byte>>, chunk: seq<byte>)
    ensures Concat(chunks + [chunk]) == Concat(chunks) + chunk
  {
    assert (chunks + [chunk])[..|chunks|] == chunks;
  }

  /** Two byte memories hold the same bytes in `[lo, hi)`. */
  ghost predicate Agree(a: seq<byte>, b: seq<byte>, lo: nat, hi: nat) {
    |a| == |b| && hi <= |a| && forall i :: lo <= i < hi ==> a[i] == b[i]
  }

  predicate IsErased(mem: seq<byte>, lo: nat, hi: nat)
    requires hi <= |mem|
  {
    forall i :: lo <= i < hi ==> mem[i] == ERASED
  }

  /** Writing a concatenation is writing its parts one after the other. */
  lemma OverlayTwice(mem: seq<byte>, off: nat, a: seq<byte>, b: seq<byte>)
    requires off + |a| + |b| <= |mem|
    ensures Overlay(Overlay(mem, off, a), off + |a|, b) == Overlay(mem, off, a + b)
  {
  }

  lemma AgreeSlice(a: seq<byte>, b: seq<byte>, lo: nat, hi: nat)
    requires lo <= hi && Agree(a, b, lo, hi)
    ensures a[lo..hi] == b[lo..hi]
  {
  }
}
