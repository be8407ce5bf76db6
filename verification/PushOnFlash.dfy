/** What a push does on a working flash device whatever the tail of the partition holds: the device
    refuses to program over bytes that are not erased, and a refusal resets the area. */
module PushOnFlash {
  import opened Bytes
  import opened Crc
  import opened RecordFormat
  import opened Fifo
  import opened FlashDevice
  import opened Errors

  /** The device takes the body behind the header slot, and then the header in front of it. */
  predicate PushAccepted(block: BlockSize, d: Disk, r: Record)
    requires Fits(block, d, |r|)
  {
    BodyFits(block, d, r);
    && Programmable(block, d.mem, d.wr + HEADER, Body(block, r))
    && Programmable(block, Overlay(d.mem, d.wr + HEADER, Body(block, r)), d.wr, PushHeader(r))
  }

  function PushHeader(r: Record): (h: seq<byte>)
    ensures |h| == HEADER
  {
    HeaderBytes(|r|, Crc16(CRC16_SEED, r))
  }

  /** `storage_push` of a record that fits. */
  function DevicePush(block: BlockSize, d: Disk, r: Record): (Disk, Ret)
    requires Fits(block, d, |r|)
  {
    if PushAccepted(block, d, r) then (Pushed(block, d, r), Success) else (Reset(|d.mem|), Internal)
  }

  lemma BodyFits(block: BlockSize, d: Disk, r: Record)
    requires Fits(block, d, |r|)
    ensures d.wr + HEADER + |Body(block, r)| == d.wr + Span(block, |r|) <= |d.mem|
  {
  }

  /** Writing a header in front of a body amounts to one write of both. */
  lemma HeaderOverBody(mem: seq<byte>, off: nat, header: seq<byte>, body: seq<byte>)
    requires off + |header| + |body| <= |mem|
    ensures Overlay(Overlay(mem, off + |header|, body), off, header) == Overlay(mem, off, header + body)
  {
  }

  lemma ReadsBack(mem: seq<byte>, off: nat, r: seq<byte>, padding: seq<byte>)
    requires off + |r| + |padding| <= |mem|
    ensures Overlay(mem, off, r + padding)[off..off + |r|] == r
  {
    assert forall i :: 0 <= i < |r| ==> Overlay(mem, off, r + padding)[off + i] == (r + padding)[i] == r[i];
  }

  lemma ImageParts(block: BlockSize, r: Record)
    ensures Image(block, r) == PushHeader(r) + Body(block, r)
  {
  }

  lemma ErasedProgrammable(block: BlockSize, mem: seq<byte>, off: nat, data: seq<byte>)
    requires off + |data| <= |mem| && Aligned(block, off) && Aligned(block, |data|)
    requires IsErased(mem, off, off + |data|)
    ensures Programmable(block, mem, off, data)
  {
  }

  lemma BodyAligned(block: BlockSize, r: Record)
    ensures Aligned(block, |Body(block, r)|) && Aligned(block, HEADER)
  {
  }

  /** On an erased tail nothing is refused. */
  lemma HoldsAccepted(block: BlockSize, d: Disk, q: seq<Record>, r: Record)
    requires Holds(block, d, q) && Fits(block, d, |r|)
    ensures PushAccepted(block, d, r)
  {
    hide Rem, Body, Programmable, Holds, Fits, Span, Aligned, Overlay, PushHeader;
    BodyFits(block, d, r);
    BodyAligned(block, r);
    LayoutEnd(block, d, q);
    AlignedAdd(block, d.wr, HEADER);
    TailErased(block, d, q);
    ErasedProgrammable(block, d.mem, d.wr + HEADER, Body(block, r));
    ErasedProgrammable(block, Overlay(d.mem, d.wr + HEADER, Body(block, r)), d.wr, PushHeader(r));
  }

  lemma TailErased(block: BlockSize, d: Disk, q: seq<Record>)
    requires Holds(block, d, q)
    ensures d.wr <= |d.mem| && IsErased(d.mem, d.wr, |d.mem|)
  {
  }

  /** Writing whole blocks and then the padded rest is refused exactly when writing all at once is. */
  lemma TwoWritesAsOne(block: BlockSize, mem: seq<byte>, off: nat, a: seq<byte>, b: seq<byte>)
    requires off + |a| + |b| <= |mem| && Aligned(block, |a|) && Aligned(block, |b|)
    ensures Programmable(block, mem, off, a + b)
       <==> && Programmable(block, mem, off, a)
            && (b != [] ==> Programmable(block, Overlay(mem, off, a), off + |a|, b))
  {
    if Aligned(block, off) {
      AlignedAdd(block, off, |a|);
      AlignedAdd(block, |a|, |b|);
      FirstHalf(block, mem, off, a, b);
      if Programmable(block, mem, off, a) {
        SecondHalf(block, mem, off, a, b);
      }
    }
  }

  lemma FirstHalf(block: BlockSize, mem: seq<byte>, off: nat, a: seq<byte>, b: seq<byte>)
    requires off + |a| + |b| <= |mem| && Aligned(block, off) && Aligned(block, |a|) && Aligned(block, |a + b|)
    ensures Programmable(block, mem, off, a + b) ==> Programmable(block, mem, off, a)
  {
    hide Rem;
    if Programmable(block, mem, off, a + b) {
      forall k | 0 <= k < |a| && Aligned(block, k) && k + block <= |a|
        ensures BlockProgrammable(mem, off, a, k, block)
      {
        assert BlockProgrammable(mem, off, a + b, k, block);
        assert forall j :: k <= j < k + block ==> (a + b)[j] == a[j];
      }
    }
  }

  lemma SecondHalf(block: BlockSize, mem: seq<byte>, off: nat, a: seq<byte>, b: seq<byte>)
    requires off + |a| + |b| <= |mem| && Aligned(block, off) && Aligned(block, |a|)
    requires Aligned(block, |b|) && Aligned(block, off + |a|) && Aligned(block, |a + b|)
    requires Programmable(block, mem, off, a)
    ensures Programmable(block, mem, off, a + b)
       <==> Programmable(block, Overlay(mem, off, a), off + |a|, b)
  {
    hide Rem, Programmable;
    if Programmable(block, mem, off, a + b) {
      RestAccepted(block, mem, off, a, b);
    }
    if Programmable(block, Overlay(mem, off, a), off + |a|, b) {
      WholeAccepted(block, mem, off, a, b);
    }
  }

  lemma RestAccepted(block: BlockSize, mem: seq<byte>, off: nat, a: seq<byte>, b: seq<byte>)
    requires off + |a| + |b| <= |mem| && Aligned(block, |a|) && Aligned(block, |b|) && Aligned(block, off + |a|)
    requires Programmable(block, mem, off, a + b)
    ensures Programmable(block, Overlay(mem, off, a), off + |a|, b)
  {
    hide Rem, Aligned, Overlay;
    var m := Overlay(mem, off, a);
    forall k | 0 <= k < |b| && Aligned(block, k) && k + block <= |b|
      ensures BlockProgrammable(m, off + |a|, b, k, block)
    {
      AlignedAdd(block, |a|, k);
      assert BlockProgrammable(mem, off, a + b, |a| + k, block);
      SameBlock(mem, m, off, a, b, k, block);
    }
  }

  lemma WholeAccepted(block: BlockSize, mem: seq<byte>, off: nat, a: seq<byte>, b: seq<byte>)
    requires off + |a| + |b| <= |mem| && Aligned(block, off) && Aligned(block, |a|) && Aligned(block, |a + b|)
    requires Programmable(block, mem, off, a) && Programmable(block, Overlay(mem, off, a), off + |a|, b)
    ensures Programmable(block, mem, off, a + b)
  {
    hide Rem, Aligned, Overlay;
    forall k | 0 <= k < |a + b| && Aligned(block, k) && k + block <= |a + b|
      ensures BlockProgrammable(mem, off, a + b, k, block)
    {
      BlockOfTwo(block, mem, off, a, b, k);
    }
  }

  lemma BlockOfTwo(block: BlockSize, mem: seq<byte>, off: nat, a: seq<byte>, b: seq<byte>, k: nat)
    requires off + |a| + |b| <= |mem| && Aligned(block, |a|) && Aligned(block, k) && k + block <= |a + b|
    requires Programmable(block, mem, off, a) && Programmable(block, Overlay(mem, off, a), off + |a|, b)
    ensures BlockProgrammable(mem, off, a + b, k, block)
  {
    hide Rem, Aligned, Overlay;
    var m := Overlay(mem, off, a);
    if k < |a| {
      NextBoundary(block, k, |a|);
      assert BlockProgrammable(mem, off, a, k, block);
      assert forall j :: k <= j < k + block ==> (a + b)[j] == a[j];
    } else {
      AlignedSub(block, k, |a|);
      assert BlockProgrammable(m, off + |a|, b, k - |a|, block);
      SameBlock(mem, m, off, a, b, k - |a|, block);
    }
  }

  lemma SameBlock(mem: seq<byte>, m: seq<byte>, off: nat, a: seq<byte>, b: seq<byte>, k: nat, len: nat)
    requires off + |a| + |b| <= |mem| && k + len <= |b| && m == Overlay(mem, off, a)
    ensures BlockProgrammable(mem, off, a + b, |a| + k, len) <==> BlockProgrammable(m, off + |a|, b, k, len)
  {
    assert forall j :: k <= j < k + len ==> (a + b)[|a| + j] == b[j];
    assert forall i :: off + |a| <= i < |mem| ==> m[i] == mem[i];
    if BlockProgrammable(m, off + |a|, b, k, len) && !IsErased(m, off + |a| + k, off + |a| + k + len) {
      assert forall j :: |a| + k <= j < |a| + k + len ==> (a + b)[j] == b[j - |a|];
    }
    if BlockProgrammable(mem, off, a + b, |a| + k, len) && !IsErased(m, off + |a| + k, off + |a| + k + len) {
      assert forall j :: k <= j < k + len ==> b[j] == (a + b)[|a| + j] == 0;
    }
  }
}
