/** Both CRCs as remainders of polynomial division over two elements. A polynomial is the sequence of its
    coefficients, the highest first. */
module CrcRemainder {
  import opened Division
  import opened Bytes
  import opened Crc

  type Poly = seq<bool>

  function Zero(n: nat): (p: Poly)
    ensures |p| == n
  {
    seq(n, i => false)
  }

  function Add(a: Poly, b: Poly): (c: Poly)
    requires |a| == |b|
    ensures |c| == |a| && forall i :: 0 <= i < |a| ==> c[i] == (a[i] != b[i])
  {
    seq(|a|, i requires 0 <= i < |a| => a[i] != b[i])
  }

  /** The product of two polynomials. */
  function Times(q: Poly, g: Poly): (p: Poly)
    requires |g| > 0
    ensures |p| == |q| + |g| - 1
  {
    if q == [] then Zero(|g| - 1)
    else Add(if q[0] then g + Zero(|q| - 1) else Zero(|q| + |g| - 1), [false] + Times(q[1..], g))
  }

  /** The sum of x^k over the exponents `ks`, as a polynomial of degree `n`. */
  function Sum(n: nat, ks: set<nat>): (p: Poly)
    ensures |p| == n + 1
  {
    seq(n + 1, i requires 0 <= i <= n => n - i in ks)
  }

  /** The message times x^n plus the initial register times x^m: what is divided. */
  function Dividend(r: Poly, b: Poly): (p: Poly)
    ensures |p| == |r| + |b|
  {
    Add(r + Zero(|b|), b + Zero(|r|))
  }

  /** `r` is what is left of `p` after subtracting a multiple of `g`, and its degree is lower. */
  ghost predicate IsRemainder(p: Poly, g: Poly, r: Poly) {
    && |g| == |r| + 1 && |p| >= |r|
    && exists q: Poly :: |q| == |p| - |r| && p == Add(Times(q, g), Zero(|q|) + r)
  }

  // ---- the shift register divides

  lemma {:induction false} ShiftDivides(poly: Bits, r: Bits, b: Bits) returns (q: Poly)
    requires |poly| == |r| > 0
    ensures |q| == |b|
    ensures Dividend(r, b) == Add(Times(q, [true] + poly), Zero(|b|) + ShiftAll(poly, r, b))
    decreases |b|
  {
    hide Add, Times, ShiftAll, ShiftIn, Dividend, Zero;
    q := [];
    if b == [] {
      NothingShifted(poly, r);
    } else {
      var r' := ShiftIn(poly, r, b[0]);
      var q' := ShiftDivides(poly, r', b[1..]);
      q := [r[0] != b[0]] + q';
      DividendStep(poly, r, b);
      OneMore(poly, r, b, q');
      Regroup(Taken(r[0] != b[0], [true] + poly, |b| - 1), Times(q', [true] + poly), Rest(poly, r', b[1..]));
    }
  }

  /** The multiple of `g` that a coefficient at place `n` takes off. */
  function Taken(f: bool, g: Poly, n: nat): (p: Poly)
    ensures |p| == |g| + n
  {
    if f then g + Zero(n) else Zero(|g| + n)
  }

  function Rest(poly: Bits, r: Bits, b: Bits): (p: Poly)
    requires |poly| == |r| > 0
    ensures |p| == |b| + |r|
  {
    Zero(|b|) + ShiftAll(poly, r, b)
  }

  lemma NothingShifted(poly: Bits, r: Bits)
    requires |poly| == |r| > 0
    ensures Dividend(r, []) == Add(Times([], [true] + poly), Zero(0) + ShiftAll(poly, r, []))
  {
    assert Dividend(r, []) == r;
    assert Add(Zero(|r|), Zero(0) + r) == r;
  }

  lemma OneMore(poly: Bits, r: Bits, b: Bits, q: Poly)
    requires |poly| == |r| > 0 && b != []
    ensures var f := r[0] != b[0];
            && Times([f] + q, [true] + poly) == Add(Taken(f, [true] + poly, |q|), [false] + Times(q, [true] + poly))
            && Rest(poly, r, b) == [false] + Rest(poly, ShiftIn(poly, r, b[0]), b[1..])
  {
    hide ShiftIn;
    var f := r[0] != b[0];
    assert ([f] + q)[1..] == q;
  }

  lemma DividendAt(r: Poly, b: Poly, i: nat)
    requires i < |r| + |b|
    ensures Dividend(r, b)[i] == ((i < |r| && r[i]) != (i < |b| && b[i]))
  {
  }

  /** One shift takes the first coefficient off and subtracts the polynomial if it was one. */
  lemma DividendStep(poly: Bits, r: Bits, b: Bits)
    requires |poly| == |r| > 0 && b != []
    ensures Dividend(r, b) == Add(Taken(r[0] != b[0], [true] + poly, |b| - 1),
                                  [false] + Dividend(ShiftIn(poly, r, b[0]), b[1..]))
  {
    hide Dividend;
    var r', p := ShiftIn(poly, r, b[0]), Taken(r[0] != b[0], [true] + poly, |b| - 1);
    forall i | 0 <= i < |r| + |b|
      ensures Dividend(r, b)[i] == (p[i] != ([false] + Dividend(r', b[1..]))[i])
    {
      DividendAt(r, b, i);
      if i > 0 {
        DividendAt(r', b[1..], i - 1);
      }
    }
  }

  lemma Regroup(a: Poly, t: Poly, rest: Poly)
    requires |a| == |t| + 1 && |t| == |rest|
    ensures Add(a, [false] + Add(t, rest)) == Add(Add(a, [false] + t), [false] + rest)
  {
  }

  // ---- numbers and bits

  lemma BitIs(w: nat, n: nat, i: nat)
    requires i < n
    ensures ToBits(w, n)[i] <==> w / Exp2(i) % 2 == 1
  {
    DivisionIs(w, Exp2(i));
    DivisionIs(w / Exp2(i), 2);
  }

  lemma {:induction false} FromBitsFits(b: Bits)
    ensures FromBits(b) < Exp2(|b|)
    decreases |b|
  {
    if b != [] {
      FromBitsFits(b[1..]);
    }
  }

  /** A bit of a number, one place up. */
  lemma HalfBit(w: nat, e: nat)
    requires 0 < e
    ensures w / (2 * e) == w / 2 / e
  {
    var h := w / 2;
    var q, r := h / e, h % e;
    assert h == q * e + r;
    assert w == 2 * h + w % 2;
    assert 2 * h == q * (2 * e) + 2 * r;
    Unique(w, 2 * e, q, 2 * r + w % 2);
  }

  lemma {:induction false} BitOfFromBits(b: Bits, i: nat)
    requires i < |b|
    ensures FromBits(b) / Exp2(i) % 2 == (if b[i] then 1 else 0)
    decreases |b|
  {
    var w, rest := FromBits(b), FromBits(b[1..]);
    assert w == (if b[0] then 1 else 0) + 2 * rest;
    if i > 0 {
      BitOfFromBits(b[1..], i - 1);
      HalfBit(w, Exp2(i - 1));
      assert w / 2 == rest;
    } else {
      assert Exp2(0) == 1;
    }
  }

  lemma BitsRoundTrip(b: Bits)
    ensures ToBits(FromBits(b), |b|) == b
  {
    forall i | 0 <= i < |b| ensures ToBits(FromBits(b), |b|)[i] == b[i] {
      BitIs(FromBits(b), |b|, i);
      BitOfFromBits(b, i);
    }
  }

  lemma {:induction false} ShiftAllAppend(poly: Bits, r: Bits, a: Bits, b: Bits)
    requires |poly| == |r| > 0
    ensures ShiftAll(poly, r, a + b) == ShiftAll(poly, ShiftAll(poly, r, a), b)
    decreases |a|
  {
    hide ShiftIn;
    if a == [] {
      assert a + b == b;
    } else {
      assert (a + b)[1..] == a[1..] + b && (a + b)[0] == a[0];
      ShiftAllAppend(poly, ShiftIn(poly, r, a[0]), a[1..], b);
    }
  }

  /** The bits of a message in the order of the line: bytes in order, each from its lowest bit on. */
  function MessageBits(s: seq<byte>): (b: Bits)
    ensures |b| == 8 * |s|
  {
    if s == [] then [] else MessageBits(s[..|s| - 1]) + ToBits(s[|s| - 1], 8)
  }

  // ---- CRC-16

  lemma Exp2Of16()
    ensures Exp2(16) == 0x1_0000
  {
    Powers();
  }

  lemma Step16(crc: u16, b: byte)
    ensures ToBits(Crc16Step(crc, b), 16) == ShiftAll(ToBits(0x8408, 16), ToBits(crc, 16), ToBits(b, 8))
  {
    hide ToBits, ShiftAll, FromBits, Modulo, Exp2;
    var r := ShiftAll(ToBits(0x8408, 16), ToBits(crc, 16), ToBits(b, 8));
    FromBitsFits(r);
    Exp2Of16();
    BitsRoundTrip(r);
  }

  lemma {:induction false} Register16(crc: u16, s: seq<byte>)
    ensures ToBits(Crc16(crc, s), 16) == ShiftAll(ToBits(0x8408, 16), ToBits(crc, 16), MessageBits(s))
    decreases |s|
  {
    hide ToBits, Crc16Step;
    if s != [] {
      var before, last := s[..|s| - 1], s[|s| - 1];
      Register16(crc, before);
      Step16(Crc16(crc, before), last);
      ShiftAllAppend(ToBits(0x8408, 16), ToBits(crc, 16), MessageBits(before), ToBits(last, 8));
    }
  }

  /** x^16 + x^12 + x^5 + 1. */
  function Generator16(): Poly { Sum(16, {16, 12, 5, 0}) }

  lemma Generator16Bits()
    ensures Generator16() == [true] + ToBits(0x8408, 16)
  {
    hide ToBits, Sum;
    var g := [true] + ToBits(0x8408, 16);
    forall i | 0 <= i <= 16 ensures g[i] == Generator16()[i] {
      SumAt(16, {16, 12, 5, 0}, i);
      if i > 0 {
        BitIs(0x8408, 16, i - 1);
        Bits16(i - 1);
      }
    }
  }

  lemma Bits16(i: nat)
    requires i < 16
    ensures 0x8408 / Exp2(i) % 2 == 1 <==> i in {3, 10, 15}
  {
    hide Exp2;
    Powers();
  }

  lemma Powers()
    ensures Exp2(0) == 1 && Exp2(1) == 2 && Exp2(2) == 4 && Exp2(3) == 8 && Exp2(4) == 0x10 && Exp2(5) == 0x20
    ensures Exp2(6) == 0x40 && Exp2(7) == 0x80 && Exp2(8) == 0x100 && Exp2(9) == 0x200 && Exp2(10) == 0x400
    ensures Exp2(11) == 0x800 && Exp2(12) == 0x1000 && Exp2(13) == 0x2000 && Exp2(14) == 0x4000
    ensures Exp2(15) == 0x8000 && Exp2(16) == 0x1_0000
  {
  }

  /** CRC-16/CCITT: the register is the remainder of the message, fed in the order of the line behind the
      initial register, by x^16 + x^12 + x^5 + 1. */
  lemma Crc16IsRemainder(crc: u16, s: seq<byte>)
    ensures IsRemainder(Dividend(ToBits(crc, 16), MessageBits(s)), Generator16(), ToBits(Crc16(crc, s), 16))
  {
    hide ToBits, Crc16, ShiftAll, MessageBits, Dividend, Times, Generator16, Add;
    Register16(crc, s);
    Generator16Bits();
    var q := ShiftDivides(ToBits(0x8408, 16), ToBits(crc, 16), MessageBits(s));
  }

  // ---- CRC-32

  lemma HigherPowers()
    ensures Exp2(17) == 0x20000 && Exp2(18) == 0x40000 && Exp2(19) == 0x80000 && Exp2(20) == 0x100000
    ensures Exp2(21) == 0x200000 && Exp2(22) == 0x400000 && Exp2(23) == 0x800000 && Exp2(24) == 0x1000000
    ensures Exp2(25) == 0x2000000 && Exp2(26) == 0x4000000 && Exp2(27) == 0x8000000 && Exp2(28) == 0x10000000
    ensures Exp2(29) == 0x20000000 && Exp2(30) == 0x40000000 && Exp2(31) == 0x80000000 && Exp2(32) == 0x100000000
  {
    Powers();
  }

  lemma Bits32(i: nat)
    requires i < 32
    ensures 0xEDB8_8320 / Exp2(i) % 2 == 1 <==> i in {5, 8, 9, 15, 19, 20, 21, 23, 24, 26, 27, 29, 30, 31}
  {
    hide Exp2;
    Powers();
    HigherPowers();
    if i < 16 {
    } else {
    }
  }

  lemma Step32(crc: u32, b: byte)
    ensures ToBits(Crc32Step(crc, b), 32) == ShiftAll(ToBits(0xEDB8_8320, 32), ToBits(crc, 32), ToBits(b, 8))
  {
    hide ToBits, ShiftAll, FromBits, Modulo, Exp2;
    var r := ShiftAll(ToBits(0xEDB8_8320, 32), ToBits(crc, 32), ToBits(b, 8));
    FromBitsFits(r);
    HigherPowers();
    BitsRoundTrip(r);
  }

  lemma {:induction false} Register32(r: u32, s: seq<byte>)
    ensures ToBits(Crc32Fold(r, s), 32) == ShiftAll(ToBits(0xEDB8_8320, 32), ToBits(r, 32), MessageBits(s))
    decreases |s|
  {
    hide ToBits, Crc32Step;
    if s != [] {
      var before, last := s[..|s| - 1], s[|s| - 1];
      Register32(r, before);
      Step32(Crc32Fold(r, before), last);
      ShiftAllAppend(ToBits(0xEDB8_8320, 32), ToBits(r, 32), MessageBits(before), ToBits(last, 8));
    }
  }

  /** The generator of clause 3.2.9 of IEEE 802.3. */
  function Generator32(): Poly { Sum(32, {32, 26, 23, 22, 16, 12, 11, 10, 8, 7, 5, 4, 2, 1, 0}) }

  lemma Generator32Bits()
    ensures Generator32() == [true] + ToBits(0xEDB8_8320, 32)
  {
    hide ToBits, Sum;
    var g := [true] + ToBits(0xEDB8_8320, 32);
    forall i | 0 <= i <= 32 ensures g[i] == Generator32()[i] {
      SumAt(32, {32, 26, 23, 22, 16, 12, 11, 10, 8, 7, 5, 4, 2, 1, 0}, i);
      if i > 0 {
        BitIs(0xEDB8_8320, 32, i - 1);
        Bits32(i - 1);
        PlaceOfBit(i);
      }
    }
  }

  lemma SumAt(n: nat, ks: set<nat>, i: nat)
    requires i <= n
    ensures Sum(n, ks)[i] <==> n - i in ks
  {
  }

  lemma PlaceOfBit(i: nat)
    requires 1 <= i <= 32
    ensures 32 - i in {32, 26, 23, 22, 16, 12, 11, 10, 8, 7, 5, 4, 2, 1, 0}
       <==> i - 1 in {5, 8, 9, 15, 19, 20, 21, 23, 24, 26, 27, 29, 30, 31}
  {
  }

  /** CRC-32: with both complements taken off, the result is the remainder by that generator. */
  lemma Crc32IsRemainder(crc: u32, s: seq<byte>)
    ensures IsRemainder(Dividend(ToBits(0xFFFF_FFFF - crc, 32), MessageBits(s)), Generator32(),
                        ToBits(0xFFFF_FFFF - Crc32Update(crc, s), 32))
  {
    hide ToBits, Crc32Fold, ShiftAll, MessageBits, Dividend, Times, Generator32, Add;
    Register32(0xFFFF_FFFF - crc, s);
    Generator32Bits();
    var q := ShiftDivides(ToBits(0xEDB8_8320, 32), ToBits(0xFFFF_FFFF - crc, 32), MessageBits(s));
  }
}
