/** Offsets and sector boundaries, for a sector size that is a multiple of the 64-byte write. */
module SectorMath {
  import opened Division

  const WRITE_SIZE: nat := 64

  /** Position inside the sector of a write-aligned offset. */
  function Pos(off: nat, sector: nat): nat
    requires 0 < sector
  {
    off % sector
  }

  /** First boundary that is not before `off`. */
  function SectorEnd(off: nat, sector: nat): nat
    requires 0 < sector
  {
    if Pos(off, sector) == 0 then off else off - Pos(off, sector) + sector
  }

  ghost predicate Boundary(x: nat, sector: nat)
    requires 0 < sector
  {
    Pos(x, sector) == 0
  }

  /** A write-aligned offset leaves room for a whole write in its sector. */
  lemma PosRoom(off: nat, sector: nat)
    requires 0 < sector && off % WRITE_SIZE == 0 && sector % WRITE_SIZE == 0
    ensures Pos(off, sector) <= sector - WRITE_SIZE && Pos(off, sector) % WRITE_SIZE == 0
    ensures Pos(off, sector) <= off
  {
    var q, k := off / sector, sector / WRITE_SIZE;
    MulAssociates(q, k);
    Exactly(off, sector, q, k);
  }

  lemma MulAssociates(q: nat, k: nat)
    ensures q * (WRITE_SIZE * k) == WRITE_SIZE * (q * k)
  {
  }

  lemma Exactly(off: nat, sector: nat, q: nat, k: nat)
    requires 0 < sector && off % WRITE_SIZE == 0 && sector == WRITE_SIZE * k && q == off / sector
    requires q * (WRITE_SIZE * k) == WRITE_SIZE * (q * k)
    ensures Pos(off, sector) <= sector - WRITE_SIZE && Pos(off, sector) % WRITE_SIZE == 0
    ensures Pos(off, sector) <= off
  {
    var m, r := q * k, off % sector;
    assert off == q * sector + r;
    assert off == WRITE_SIZE * m + r;
    WholeWrites(off, sector, m, k, r);
  }

  lemma WholeWrites(off: nat, sector: nat, m: nat, k: nat, r: nat)
    requires off % WRITE_SIZE == 0 && sector == WRITE_SIZE * k && off == WRITE_SIZE * m + r && r < sector
    ensures r <= sector - WRITE_SIZE && r % WRITE_SIZE == 0 && r <= off
  {
    assert r == WRITE_SIZE * (off / WRITE_SIZE - m);
  }

  lemma EndIsBoundary(off: nat, sector: nat)
    requires 0 < sector
    ensures off <= SectorEnd(off, sector) && Boundary(SectorEnd(off, sector), sector)
  {
    var q, r := off / sector, off % sector;
    assert off == q * sector + r;
    if r != 0 {
      assert (q + 1) * sector == q * sector + sector;
      Unique(off - r + sector, sector, q + 1, 0);
    }
  }

  lemma EndIsAligned(off: nat, sector: nat)
    requires 0 < sector && off % WRITE_SIZE == 0 && sector % WRITE_SIZE == 0
    ensures SectorEnd(off, sector) % WRITE_SIZE == 0
  {
    hide Pos;
    PosRoom(off, sector);
    Multiples(off, sector, Pos(off, sector));
  }

  lemma Multiples(a: nat, b: nat, c: nat)
    requires a % WRITE_SIZE == 0 && b % WRITE_SIZE == 0 && c % WRITE_SIZE == 0 && c <= a
    ensures (a - c + b) % WRITE_SIZE == 0
  {
  }

  /** One write further. */
  lemma NextEnd(off: nat, sector: nat)
    requires 0 < sector && off % WRITE_SIZE == 0 && sector % WRITE_SIZE == 0
    ensures SectorEnd(off + WRITE_SIZE, sector)
         == if Boundary(off, sector) then off + sector else SectorEnd(off, sector)
  {
    PosRoom(off, sector);
    var q, r := off / sector, off % sector;
    assert off == q * sector + r;
    if r + WRITE_SIZE == sector {
      assert (q + 1) * sector == q * sector + sector;
      Unique(off + WRITE_SIZE, sector, q + 1, 0);
    } else {
      Unique(off + WRITE_SIZE, sector, q, r + WRITE_SIZE);
    }
  }

  /** Between two different boundaries lies a whole sector. */
  lemma BoundaryRoom(a: nat, b: nat, sector: nat)
    requires 0 < sector && Boundary(a, sector) && Boundary(b, sector) && a < b
    ensures a + sector <= b
  {
    var p, q := a / sector, b / sector;
    assert a == p * sector && b == q * sector;
    if q <= p {
      if q < p {
        MulStep(q, p, sector);
      }
    } else {
      MulStep(p, q, sector);
    }
  }
}
