/** The two CRCs of the firmware as folds over bytes: CRC-16/CCITT as Zephyr's `crc16_ccitt`
    computes it (reflected, no final complement) and CRC-32 of clause 3.2.9 of IEEE 802.3. */
module Crc {
  import opened Division
  import opened Bytes

  type u16 = w: int | 0 <= w < 0x1_0000
  type u32 = w: int | 0 <= w < 0x1_0000_0000

  const CRC16_SEED: u16 := 0xFFFF

  /** Bits of a number, least significant first. */
  type Bits = seq<bool>

  function Exp2(n: nat): (p: nat)
    ensures p > 0
  {
    if n == 0 then 1 else 2 * Exp2(n - 1)
  }

  function ToBits(w: nat, n: nat): (b: Bits)
    ensures |b| == n
  {
    seq(n, i requires 0 <= i < n => Modulo(Quotient(w, Exp2(i)), 2) == 1)
  }

  function FromBits(b: Bits): nat {
    if b == [] then 0 else (if b[0] then 1 else 0) + 2 * FromBits(b[1..])
  }

  /** One step of the reflected division: shift right, subtract the polynomial if a one falls out. */
  function ShiftIn(poly: Bits, r: Bits, bit: bool): (r': Bits)
    requires |poly| == |r| > 0
    ensures |r'| == |r|
  {
    var feedback := r[0] != bit;
    seq(|r|, i requires 0 <= i < |r| => (i + 1 < |r| && r[i + 1]) != (feedback && poly[i]))
  }

  function ShiftAll(poly: Bits, r: Bits, bits: Bits): (r': Bits)
    decreases |bits|
    requires |poly| == |r| > 0
    ensures |r'| == |r|
  {
    if bits == [] then r else ShiftAll(poly, ShiftIn(poly, r, bits[0]), bits[1..])
  }

  /** CRC register after one more byte; 0x8408 is the reflection of 0x1021. */
  function Crc16Step(crc: u16, b: byte): u16 {
    Modulo(FromBits(ShiftAll(ToBits(0x8408, 16), ToBits(crc, 16), ToBits(b, 8))), 0x1_0000)
  }

  /** 0xEDB88320 is the reflection of 0x04C11DB7. */
  function Crc32Step(crc: u32, b: byte): u32 {
    Modulo(FromBits(ShiftAll(ToBits(0xEDB8_8320, 32), ToBits(crc, 32), ToBits(b, 8))), 0x1_0000_0000)
  }

  function Crc16(crc: u16, s: seq<byte>): u16 {
    if s == [] then crc else Crc16Step(Crc16(crc, s[..|s| - 1]), s[|s| - 1])
  }

  function Crc32Fold(r: u32, s: seq<byte>): u32 {
    if s == [] then r else Crc32Step(Crc32Fold(r, s[..|s| - 1]), s[|s| - 1])
  }

  function Complement(r: u32): u32 { 0xFFFF_FFFF - r }

  /** `crc32_ieee_update`: complemented on the way in and on the way out. */
  function Crc32Update(crc: u32, s: seq<byte>): u32 {
    Complement(Crc32Fold(Complement(crc), s))
  }

  /** Feeding a message in two parts is feeding it whole. */
  lemma {:induction false} Crc16Append(crc: u16, a: seq<byte>, b: seq<byte>)
    ensures Crc16(crc, a + b) == Crc16(Crc16(crc, a), b)
  {
    if b == [] {
      assert a + b == a;
    } else {
      var last := |b| - 1;
      assert (a + b)[..|a| + last] == a + b[..last];
      Crc16Append(crc, a, b[..last]);
    }
  }

  lemma {:induction false} Crc32FoldAppend(r: u32, a: seq<byte>, b: seq<byte>)
    ensures Crc32Fold(r, a + b) == Crc32Fold(Crc32Fold(r, a), b)
  {
    if b == [] {
      assert a + b == a;
    } else {
      var last := |b| - 1;
      assert (a + b)[..|a| + last] == a + b[..last];
      Crc32FoldAppend(r, a, b[..last]);
    }
  }

  /** The update calls of a page loop compose: the two complements between them cancel. */
  lemma Crc32UpdateAppend(crc: u32, a: seq<byte>, b: seq<byte>)
    ensures Crc32Update(crc, a + b) == Crc32Update(Crc32Update(crc, a), b)
  {
    Crc32FoldAppend(Complement(crc), a, b);
  }
}
