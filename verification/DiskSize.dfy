/** Finding the size of a raw disk by probing reads: DiskWriter::GetRawDiskSize. */
module DiskSize {
  import opened Arith

  const U64: nat := 0x1_0000_0000_0000_0000
  const INT_MAX: nat := 0x7fff_ffff

  datatype Status = Success | InvalidParameter

  function Log2(x: nat): nat {
    if x < 2 then 0 else 1 + Log2(x / 2)
  }

  /** The logarithm, rounded down. */
  lemma {:induction false} Log2Is(x: nat)
    requires x > 0
    ensures Pow2(Log2(x)) <= x < 2 * Pow2(Log2(x))
  {
    if x > 1 { Log2Is(x / 2); }
  }

  lemma {:induction false} Pow2BelowLog2(i: nat, x: nat)
    requires Pow2(i) <= x
    ensures i <= Log2(x)
  {
    if i > 0 { Pow2BelowLog2(i - 1, x / 2); }
  }

  /** The last readable sector; sector 0 is never tried. */
  function Last(sectors: nat): nat { if sectors == 0 then 0 else sectors - 1 }

  /** How many reads are left at most, from a distance of rest sectors with steps of Pow2(k), once a
      step of Pow2(k + 1) was too far. */
  ghost function Left(rest: nat, k: nat): int {
    if k >= 2 && rest < Pow2(k - 1) then 3 * k - 3
    else if k >= 1 && rest < Pow2(k) then 3 * k - 1
    else 3 * k + 1
  }

  /** The search in sectors: it stands at m with steps of Pow2(k); tries reads succeeded before the
      first that failed, and probes were made in all. */
  datatype Search = Search(last: nat, m: nat, k: nat, tries: nat, failed: bool, probes: nat) {
    ghost predicate Valid() {
      && m <= last && Pow2(k) <= m + 1024
      && (!failed ==> m == 1024 * Pow2(tries) - 1024 && k == 10 + tries && probes == tries)
      && (failed ==> && last - m < Pow2(k + 1) && 1024 * Pow2(tries) - 1024 <= last
                     && probes + Left(last - m, k) <= 4 * tries + 29)
    }

    /** The step after a read that succeeded or failed. */
    ghost function Next(ok: bool): Search {
      if ok then this.(m := m + Pow2(k), k := k + 1, tries := if failed then tries else tries + 1, probes := probes + 1)
      else this.(k := if k == 0 then 0 else k - 1, failed := true, probes := probes + 1)
    }

    lemma NextIsValid()
      requires Valid() && k > 0
      ensures Next(m + Pow2(k) <= last).Valid()
    {
      if !failed && m + Pow2(k) <= last { PowSum(tries); }
    }

    lemma Steps()
      requires Valid()
      ensures m <= last && Pow2(k) <= m + 1024 && Pow2(k) > 0
      ensures k > 0 ==> Next(m + Pow2(k) <= last).Valid()
      ensures forall ok :: Next(ok).last == last && Next(ok).probes == probes + 1
      ensures Next(true).m == m + Pow2(k) && Next(true).k == k + 1
      ensures Next(false).m == m && Next(false).k == if k == 0 then 0 else k - 1
      ensures k == 0 ==> last == if m + Pow2(k) <= last then m + Pow2(k) else m
      ensures k == 0 ==> probes + 1 <= 4 * Log2((last + 1024) / 1024) + 29
    {
      if k > 0 { NextIsValid(); } else { Ends(); }
    }

    /** The last read decides between two neighbouring sectors. */
    lemma Ends()
      requires Valid() && k == 0
      ensures last == if m + 1 <= last then m + 1 else m
      ensures probes + 1 <= 4 * tries + 29
      ensures tries <= Log2((last + 1024) / 1024)
    {
      assert Pow2(1) == 2 && Pow2(0) == 1;
      Pow2BelowLog2(tries, (last + 1024) / 1024);
    }
  }

  /** 1024 * Pow2(i) is Pow2(10 + i). */
  lemma {:induction false} PowSum(i: nat)
    ensures 1024 * Pow2(i) == Pow2(10 + i)
  {
    if i == 0 {
      assert Pow2(5) == 32;
      assert Pow2(10) == 1024;
    } else {
      PowSum(i - 1);
    }
  }

  /** A read p > 0 sectors further on succeeds iff the last readable sector is not before it. */
  lemma ReadableIff(size: nat, sectors: nat, m: nat, p: nat)
    requires size > 0 && p > 0
    ensures (m * size + p * size) / size < sectors <==> m + p <= Last(sectors)
  {
    assert m * size + p * size == (m + p) * size;
    Multiples(m + p, size);
  }

  lemma StepOfOne(size: nat, k: nat)
    requires size > 0
    ensures Pow2(k) * size <= size <==> k == 0
    ensures k > 0 ==> (Pow2(k) * size) / 2 == Pow2(k - 1) * size
  {
    if k > 0 {
      var h := Pow2(k - 1);
      assert (2 * h) * size == 2 * (h * size);
      AtLeastOnce(h, size);
    } else {
      assert Pow2(0) * size == size;
    }
  }

  lemma InRange(size: nat, sectors: nat, m: nat, p: nat)
    requires (2 * sectors + 1025) * size <= U64 && size > 0
    requires m <= Last(sectors) && p <= m + 1024
    ensures m * size + p * size < U64
  {
    MulMonotone(m + p + 1, 2 * sectors + 1025, size);
    assert (m + p + 1) * size == m * size + p * size + size;
  }

  /** Sectors, in bytes. */
  function Bytes(n: nat, size: nat): nat { n * size }

  /** One probe, in bytes. */
  lemma StepInBytes(size: nat, sectors: nat, m: nat, k: nat)
    requires size > 0 && (2 * sectors + 1025) * size <= U64 && m <= Last(sectors) && Pow2(k) <= m + 1024
    ensures Bytes(m, size) + Bytes(Pow2(k), size) < U64
    ensures (Bytes(m, size) + Bytes(Pow2(k), size)) / size < sectors <==> m + Pow2(k) <= Last(sectors)
    ensures Bytes(Pow2(k), size) <= size <==> k == 0
    ensures Bytes(m + Pow2(k), size) == Bytes(m, size) + Bytes(Pow2(k), size)
    ensures Bytes(Pow2(k + 1), size) == 2 * Bytes(Pow2(k), size)
    ensures k > 0 ==> Bytes(Pow2(k - 1), size) == Bytes(Pow2(k), size) / 2
  {
    var p := Pow2(k);
    InRange(size, sectors, m, p);
    ReadableIff(size, sectors, m, p);
    StepOfOne(size, k);
    Distribute(m, p, size);
    DoubleStep(size, k);
  }

  lemma Starts(size: nat, sectors: nat) returns (s: Search)
    ensures s.Valid() && s.last == Last(sectors) && s.probes == 0
    ensures Bytes(s.m, size) == 0 && Bytes(Pow2(s.k), size) == size * 1024
  {
    s := Search(Last(sectors), 0, 10, 0, false, 0);
    PowSum(0);
  }

  lemma InSectors(n: nat, size: nat)
    ensures Bytes(n, size) == n * size
  {
  }

  lemma Distribute(a: nat, b: nat, c: nat)
    ensures (a + b) * c == a * c + b * c
  {
  }

  lemma DoubleStep(size: nat, k: nat)
    ensures Pow2(k + 1) * size == 2 * (Pow2(k) * size)
  {
    var p := Pow2(k);
    assert (2 * p) * size == 2 * (p * size);
  }

  /** A disk whose readable sectors are 0 up to sectors - 1, with the number of reads tried on it. */
  class Disk {
    const sectorSize: nat
    const sectors: nat
    var isOpen: bool
    ghost var probes: nat

    constructor (sectorSize: nat, sectors: nat, isOpen: bool)
      ensures this.sectorSize == sectorSize && this.sectors == sectors && this.isOpen == isOpen && probes == 0
    {
      this.sectorSize, this.sectors, this.isOpen, probes := sectorSize, sectors, isOpen, 0;
    }

    /** RawReadTest: a read of one sector. Offsets have 64 bits. */
    method RawReadTest(offset: nat) returns (ok: bool)
      requires sectorSize > 0 && offset < U64
      modifies this`probes
      ensures ok <==> offset / sectorSize < sectors
      ensures probes == old(probes) + 1
    {
      ok := offset / sectorSize < sectors;
      probes := probes + 1;
    }

    /** GetRawDiskSize: it ends, and what it gives is the offset of the last readable sector, found with
        a number of reads logarithmic in the size. No offset it tries wraps around. */
    method GetRawDiskSize() returns (status: Status, ds: nat)
      requires 0 < sectorSize && sectorSize * 1024 <= INT_MAX
      requires (2 * sectors + 1025) * sectorSize <= U64
      modifies this`probes
      ensures status == Success <==> isOpen
      ensures isOpen ==> ds == Last(sectors) * sectorSize
      ensures isOpen ==> probes - old(probes) <= 4 * Log2((Last(sectors) + 1024) / 1024) + 29
      ensures !isOpen ==> probes == old(probes)
    {
      if !isOpen { return InvalidParameter, 0; }
      ds := 0;
      var diff := sectorSize * 1024;
      ghost var s := Starts(sectorSize, sectors);
      hide *;
      while true
        invariant s.Valid() && s.last == Last(sectors)
        invariant ds == Bytes(s.m, sectorSize) && diff == Bytes(Pow2(s.k), sectorSize)
        invariant probes == old(probes) + s.probes
        decreases s.last - s.m, s.k
      {
        s.Steps();
        StepInBytes(sectorSize, sectors, s.m, s.k);
        var ok := RawReadTest(ds + diff);
        s := s.Next(ok);
        if diff <= sectorSize {
          if ok {
            ds := ds + diff;
          }
          break;
        }
        if ok {
          ds := ds + diff;
          diff := diff * 2;
        } else {
          diff := diff / 2;
        }
      }
      InSectors(Last(sectors), sectorSize);
      return Success, ds;
    }
  }
}
