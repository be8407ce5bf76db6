/** What the image check covers, said about the bytes of an encoded image: header, body and TLV area. */
module DfuImage {
  import opened Bytes
  import opened Crc
  import opened Errors
  import opened DfuSteps
  import opened DfuDevice
  import DfuProof

  /** A 32-bit field at `at`. */
  function Field(s: seq<byte>, at: nat): nat
    requires at + 4 <= |s|
  {
    Number(s[at], s[at + 1]) + 0x1_0000 * Number(s[at + 2], s[at + 3])
  }

  /** The magic of a TLV area: 0x6907, or 0x6908 for a protected one. */
  predicate TlvMagic(s: seq<byte>)
    requires 2 <= |s|
  {
    (s[0] == 0x07 || s[0] == 0x08) && s[1] == 0x69
  }

  /** The header says how long itself and the body are, the TLV area, if there is one, how long it is. */
  ghost predicate IsImage(header: seq<byte>, body: seq<byte>, tlv: seq<byte>) {
    && 32 <= |header| && Number(header[8], header[9]) == |header|
    && 0 < |body| && Field(header, 12) == |body|
    && (tlv == [] || (4 <= |tlv| && TlvMagic(tlv) && Number(tlv[2], tlv[3]) == |tlv|))
  }

  /** What follows an image without a TLV area does not look like one. */
  ghost predicate NoTlv(rest: seq<byte>) { 4 <= |rest| ==> !TlvMagic(rest) }

  lemma FieldIs(s: seq<byte>, at: nat)
    requires at + 4 <= |s|
    ensures U32At(s, at) == Field(s, at)
  {
    WordIs(s[at], s[at + 1]);
    WordIs(s[at + 2], s[at + 3]);
  }

  /** The size the check computes, in numbers. */
  lemma SizeInNumbers(slot: seq<byte>)
    requires 32 <= |slot|
    ensures ImageField(slot) == Field(slot, 12)
    ensures var size := (Number(slot[8], slot[9]) + Field(slot, 12)) % 0x1_0000_0000;
            TotalSize(slot) == if size + 4 <= |slot| && TlvMagic(slot[size..])
                                 then (size + Number(slot[size + 2], slot[size + 3])) % 0x1_0000_0000
                               else size
  {
    hide Word, U32At;
    FieldIs(slot, 12);
    WordIs(slot[8], slot[9]);
    var size := (Number(slot[8], slot[9]) + Field(slot, 12)) % 0x1_0000_0000;
    if size + 4 <= |slot| {
      WordIs(slot[size], slot[size + 1]);
      WordIs(slot[size + 2], slot[size + 3]);
      assert slot[size..][0] == slot[size] && slot[size..][1] == slot[size + 1];
    }
  }

  /** With an image at the start of the slot the check succeeds if and only if the CRC-32 of its header, its
      body and the TLV area behind them is the expected one. Behind a protected TLV area the code does not look
      for another one: that belongs to `rest`. */
  lemma CheckCoversImage(slot: seq<byte>, header: seq<byte>, body: seq<byte>, tlv: seq<byte>, rest: seq<byte>,
                         crc32: u32)
    requires IsImage(header, body, tlv) && slot == header + body + tlv + rest && |slot| < 0x1_0000_0000
    requires tlv == [] ==> NoTlv(rest)
    ensures CheckImage(slot, crc32)
         == if Crc32Update(0, header + body + tlv) == crc32 then Success else InvalidState
  {
    hide Crc32Update, TotalSize, ImageField, IsImage, NoTlv;
    SizeOfImage(slot, header, body, tlv, rest);
    Halves(header + body + tlv, rest);
  }

  lemma SizeOfImage(slot: seq<byte>, header: seq<byte>, body: seq<byte>, tlv: seq<byte>, rest: seq<byte>)
    requires IsImage(header, body, tlv) && slot == header + body + tlv + rest && |slot| < 0x1_0000_0000
    requires tlv == [] ==> NoTlv(rest)
    ensures 32 <= |slot| && ImageField(slot) == |body| > 0 && TotalSize(slot) == |header + body + tlv| <= |slot|
  {
    hide TotalSize, ImageField, Field, Number, TlvMagic;
    Regrouped(header, body, tlv, rest);
    HeaderFirst(slot, header, body + tlv + rest);
    AnnouncedSize(slot, header + body, tlv + rest);
    FieldFits(slot);
    if tlv == [] {
      assert tlv + rest == rest;
    } else {
      FirstOf(tlv, rest);
    }
  }

  lemma Regrouped(a: seq<byte>, b: seq<byte>, c: seq<byte>, d: seq<byte>)
    ensures a + b + c + d == (a + b) + (c + d) == a + (b + c + d)
  {
  }

  lemma FieldFits(slot: seq<byte>)
    requires 32 <= |slot|
    ensures ImageField(slot) == Field(slot, 12)
  {
    FieldIs(slot, 12);
  }

  /** The size, when it is that of the bytes in front of `behind`. */
  lemma AnnouncedSize(slot: seq<byte>, front: seq<byte>, behind: seq<byte>)
    requires 32 <= |slot| < 0x1_0000_0000 && slot == front + behind
    requires |front| == Number(slot[8], slot[9]) + Field(slot, 12)
    ensures TotalSize(slot) == if 4 <= |behind| && TlvMagic(behind)
                                 then (|front| + Number(behind[2], behind[3])) % 0x1_0000_0000
                               else |front|
  {
    hide TotalSize, Field, Number, TlvMagic;
    SizeInNumbers(slot);
    Halves(front, behind);
    AtBehind(slot, front, behind);
  }

  lemma Halves(a: seq<byte>, b: seq<byte>)
    ensures (a + b)[..|a|] == a && (a + b)[|a|..] == b
  {
  }

  lemma AtBehind(s: seq<byte>, a: seq<byte>, b: seq<byte>)
    requires s == a + b
    ensures 4 <= |b| ==> s[|a| + 2] == b[2] && s[|a| + 3] == b[3]
  {
  }

  lemma FirstOf(tlv: seq<byte>, rest: seq<byte>)
    requires 4 <= |tlv|
    ensures var b := tlv + rest; b[2] == tlv[2] && b[3] == tlv[3] && (TlvMagic(b) <==> TlvMagic(tlv))
  {
  }

  lemma HeaderFirst(slot: seq<byte>, header: seq<byte>, rest: seq<byte>)
    requires 32 <= |header| && slot == header + rest
    ensures slot[8] == header[8] && slot[9] == header[9] && Field(slot, 12) == Field(header, 12)
  {
  }

  /** The same at the end of a transfer: if the blocks are an image, the check decides by the CRC-32 of exactly
      the bytes sent. */
  lemma TransferIsChecked(cfg: Config, d: Dfu, header: seq<byte>, body: seq<byte>, tlv: seq<byte>, crc32: u32)
    requires cfg.Valid() && DfuProof.Finished(cfg, d) && IsImage(header, body, tlv)
    requires Concat(d.blocks[..d.blockCount]) == header + body + tlv
    ensures |header + body + tlv| <= |d.slot|
    ensures (tlv == [] ==> NoTlv(d.slot[|header + body + tlv|..])) ==>
              CheckImage(d.slot, crc32)
              == if Crc32Update(0, Concat(d.blocks[..d.blockCount])) == crc32 then Success else InvalidState
  {
    hide Concat, PadTo8, DfuProof.Disciplined, IsImage, CheckImage, NoTlv, Crc32Update;
    var all := header + body + tlv;
    var end := |all| + PadTo8(|all|);
    assert d.slot[..end] == all + Blank(PadTo8(|all|));
    assert forall i :: 0 <= i < end ==> d.slot[i] == d.slot[..end][i];
    assert d.slot == all + d.slot[|all|..];
    if tlv == [] ==> NoTlv(d.slot[|all|..]) {
      CheckCoversImage(d.slot, header, body, tlv, d.slot[|all|..], crc32);
    }
  }

  /** An image without a body is refused as invalid. */
  lemma EmptyIsInvalid(slot: seq<byte>, crc32: u32)
    requires 32 <= |slot| && Field(slot, 12) == 0
    ensures CheckImage(slot, crc32) == InvalidState
  {
    hide TotalSize, Field;
    SizeInNumbers(slot);
  }

  /** A header or TLV area that announces more than the slot holds is an internal error, as the slot cannot be
      read that far. */
  lemma TooLongIsInternal(slot: seq<byte>, crc32: u32)
    requires 32 <= |slot| && 0 < Field(slot, 12)
    ensures var size := Number(slot[8], slot[9]) + Field(slot, 12);
            size < 0x1_0000_0000 &&
            (|slot| < size
             || (size + 4 <= |slot| && TlvMagic(slot[size..])
                 && |slot| < size + Number(slot[size + 2], slot[size + 3]) < 0x1_0000_0000))
            ==> CheckImage(slot, crc32) == Internal
  {
    hide TotalSize, Field, Number, Crc32Update;
    SizeInNumbers(slot);
  }
}
