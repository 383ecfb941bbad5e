/** Conversions between byte counts and 512-byte sectors (p2v/sectors.py). */
module Sectors {
  import opened Wrappers

  const SectorSize: int := 512

  /** Byte count to sectors; only whole sectors are accepted. */
  function Sectors(bytecount: int): (r: Result<int>)
    ensures r.Success? <==> bytecount % SectorSize == 0
    ensures r.Success? ==> r.value * SectorSize == bytecount
    ensures r.Failure? ==> r.error == NotSectorAligned
  {
    if bytecount % SectorSize != 0 then Failure(NotSectorAligned)
    else Success(bytecount / SectorSize)
  }

  function SectorBytes(sectors: int): int {
    sectors * SectorSize
  }

  predicate CheckSectorAligned(offset: int)
    ensures CheckSectorAligned(offset) <==> Sectors(offset).Success?
  {
    offset % SectorSize == 0
  }

  /** Sectors to bytes and back is the identity. */
  lemma {:induction false} SectorsOfSectorBytes(s: int)
    ensures Sectors(SectorBytes(s)) == Success(s)
  {
  }

  /** Bytes to sectors and back is the identity on whole sectors. */
  lemma {:induction false} SectorBytesOfSectors(b: int)
    requires CheckSectorAligned(b)
    ensures SectorBytes(Sectors(b).value) == b
  {
  }
}
