/** A NOR flash partition behind Zephyr's flash-area calls. */
module FlashDevice {
  import opened Bytes
  import opened RecordFormat

  /** The hardware programs a block only if it is erased, or if the new content is all zeros. */
  predicate BlockProgrammable(mem: seq<byte>, off: nat, data: seq<byte>, k: nat, len: nat)
    requires k + len <= |data| && off + |data| <= |mem|
  {
    IsErased(mem, off + k, off + k + len) || forall j :: k <= j < k + len ==> data[j] == 0
  }

  /** A write the hardware accepts: in bounds, whole blocks, each of them programmable. */
  predicate Programmable(block: BlockSize, mem: seq<byte>, off: nat, data: seq<byte>) {
    && off + |data| <= |mem|
    && Aligned(block, off) && Aligned(block, |data|)
    && forall k :: 0 <= k < |data| && Aligned(block, k) && k + block <= |data|
                   ==> BlockProgrammable(mem, off, data, k, block)
  }

  class Flash {
    const block: BlockSize
    const mem: array<byte>
    const healthy: bool // false: a write may fail on its own or program wrong bits unnoticed

    constructor (block: BlockSize, mem: array<byte>, healthy: bool)
      ensures this.block == block && this.mem == mem && this.healthy == healthy
    {
      this.block := block;
      this.mem := mem;
      this.healthy := healthy;
    }

    method Read(off: nat, len: nat) returns (ok: bool, data: seq<byte>)
      ensures ok <==> off + len <= mem.Length
      ensures ok ==> data == mem[off..off + len]
    {
      ok, data := off + len <= mem.Length, [];
      if ok {
        data := mem[off..off + len];
      }
    }

    method Erase()
      modifies mem
      ensures mem[..] == Blank(mem.Length)
    {
      forall i | 0 <= i < mem.Length {
        mem[i] := ERASED;
      }
    }

    /** A write is taken exactly if the hardware can program all of it. One that it refuses may have
        programmed the blocks in front of the first one refused, even on a healthy device. A device
        that is not healthy may also stop after any block, or program wrong bits unnoticed. Callers know
        no more than this contract; the body is a device that looks at all blocks first. */
    method Write(off: nat, data: seq<byte>) returns (ok: bool)
      modifies mem
      ensures ok ==> Programmable(block, old(mem[..]), off, data)
      ensures ok ==> exists c: seq<byte> :: |c| == |data| && mem[..] == Overlay(old(mem[..]), off, c)
      ensures healthy ==> ok == Programmable(block, old(mem[..]), off, data)
      ensures healthy && ok ==> mem[..] == Overlay(old(mem[..]), off, data)
      ensures !ok && mem[..] != old(mem[..]) ==>
                off + |data| <= mem.Length
                && exists k: nat :: k < |data| && Aligned(block, k)
                                    && mem[..] == Overlay(old(mem[..]), off, data[..k])
    {
      ok := Programmable(block, mem[..], off, data);
      if ok {
        forall i | 0 <= i < |data| {
          mem[off + i] := data[i];
        }
        assert mem[..] == Overlay(old(mem[..]), off, data);
      }
    }
  }
}
