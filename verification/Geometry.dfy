/**
  Volume geometry: the BIOS Parameter Block fields the reader uses, where the
  root directory and the data region start, and the mounted volume itself —
  the disk image as an immutable sequence of sectors together with the
  parameter block `FatInit` copied out of sector 0.
 */
module Geometry {
  import opened Bytes
  import opened Layout

  function BytesPerSector(p: BIOSParam): nat
    requires p.WellFormed()
  {
    ReadNumber(p.bytePerSector)
  }

  function SectorsPerCluster(p: BIOSParam): nat
  {
    p.secPerCluster
  }

  function ReservedSectors(p: BIOSParam): nat
    requires p.WellFormed()
  {
    ReadNumber(p.numReservedSector)
  }

  function NumFATs(p: BIOSParam): nat
  {
    p.numFAT
  }

  function MaxRootEntries(p: BIOSParam): nat
    requires p.WellFormed()
  {
    ReadNumber(p.maxNumRootEntry)
  }

  function SectorsPerFAT(p: BIOSParam): nat
    requires p.WellFormed()
  {
    ReadNumber(p.sectorPerFAT)
  }

  /**
    The 25-byte copy `FatInit` makes from sector 0 into the global parameter
    block.  Opening the image is not modelled: the caller passes the bytes of
    sector 0.
   */
  method FatInit(sector0: seq<byte>) returns (p: BIOSParam)
    requires |sector0| >= BIOS_PARAM_OFFSET + BIOS_PARAM_SIZE
    ensures p.WellFormed()
    ensures SerializeBIOSParam(p) == sector0[BIOS_PARAM_OFFSET..BIOS_PARAM_OFFSET + BIOS_PARAM_SIZE]
    ensures BytesPerSector(p) == sector0[0x0B] as int + 256 * sector0[0x0C] as int
    ensures SectorsPerCluster(p) == sector0[0x0D]
    ensures ReservedSectors(p) == sector0[0x0E] as int + 256 * sector0[0x0F] as int
    ensures NumFATs(p) == sector0[0x10]
    ensures MaxRootEntries(p) == sector0[0x11] as int + 256 * sector0[0x12] as int
    ensures SectorsPerFAT(p) == sector0[0x16] as int + 256 * sector0[0x17] as int
  {
    var buffer := new byte[BIOS_PARAM_SIZE];
    var i := 0;
    while i < BIOS_PARAM_SIZE
      invariant 0 <= i <= BIOS_PARAM_SIZE
      invariant buffer[..i] == sector0[BIOS_PARAM_OFFSET..BIOS_PARAM_OFFSET + i]
    {
      buffer[i] := sector0[BIOS_PARAM_OFFSET + i];
      i := i + 1;
    }
    assert buffer[..] == buffer[..BIOS_PARAM_SIZE];
    p := ParseBIOSParam(buffer[..]);
    BIOSParamRoundTrip(buffer[..], p);
    FieldsAtSectorOffsets(sector0, p);
  }

  /** A parameter block copied from offset 0x0B of sector 0 holds the little-endian fields at their absolute offsets. */
  lemma FieldsAtSectorOffsets(sector0: seq<byte>, p: BIOSParam)
    requires |sector0| >= BIOS_PARAM_OFFSET + BIOS_PARAM_SIZE && p.WellFormed()
    requires SerializeBIOSParam(p) == sector0[BIOS_PARAM_OFFSET..BIOS_PARAM_OFFSET + BIOS_PARAM_SIZE]
    ensures BytesPerSector(p) == sector0[0x0B] as int + 256 * sector0[0x0C] as int
    ensures SectorsPerCluster(p) == sector0[0x0D]
    ensures ReservedSectors(p) == sector0[0x0E] as int + 256 * sector0[0x0F] as int
    ensures NumFATs(p) == sector0[0x10]
    ensures MaxRootEntries(p) == sector0[0x11] as int + 256 * sector0[0x12] as int
    ensures SectorsPerFAT(p) == sector0[0x16] as int + 256 * sector0[0x17] as int
  {
    BIOSParamFieldOffsets(p);
    ReadNumber2(p.bytePerSector);
    ReadNumber2(p.numReservedSector);
    ReadNumber2(p.maxNumRootEntry);
    ReadNumber2(p.sectorPerFAT);
  }

  /** `GetStartSectorRoot`: the reserved sectors followed by every copy of the FAT. */
  function GetStartSectorRoot(p: BIOSParam): (r: nat)
    requires p.WellFormed()
    ensures ReservedSectors(p) <= r < 0x100_0000
  {
    FatRegionBounds(p);
    ReservedSectors(p) + NumFATs(p) * SectorsPerFAT(p)
  }

  /** The reserved sectors and all copies of the FAT span fewer than 2^24 sectors. */
  lemma FatRegionBounds(p: BIOSParam)
    requires p.WellFormed()
    ensures 0 <= NumFATs(p) * SectorsPerFAT(p) <= 255 * 0xFFFF
    ensures ReservedSectors(p) + NumFATs(p) * SectorsPerFAT(p) < 0x100_0000
  {
    ReadNumber2(p.numReservedSector);
    ReadNumber2(p.sectorPerFAT);
    MulMonotonic(0, NumFATs(p), SectorsPerFAT(p));
    MulMonotonic(NumFATs(p), 255, SectorsPerFAT(p));
  }

  /**
    `SectorPerRoot`: `1 + (32 * maxNumRootEntry - 1) / bytePerSector`.  With no
    root entries the subtraction wraps around (and the wrapped width depends on
    the platform's `size_t`), so callers must declare at least one entry.
   */
  function SectorPerRoot(p: BIOSParam): (r: nat)
    requires p.WellFormed() && BytesPerSector(p) >= 1 && MaxRootEntries(p) >= 1
    ensures r >= 1
  {
    1 + (DIRECTORY_ENTRY_SIZE * MaxRootEntries(p) - 1) / BytesPerSector(p)
  }

  /** With at least one root entry the root directory takes at most `32 * 0xFFFF` sectors, so no sector number wraps. */
  lemma SectorPerRootBound(p: BIOSParam)
    requires p.WellFormed() && BytesPerSector(p) >= 1 && MaxRootEntries(p) >= 1
    ensures SectorPerRoot(p) <= DIRECTORY_ENTRY_SIZE * 0xFFFF
  {
    var bps, bytes := BytesPerSector(p), DIRECTORY_ENTRY_SIZE * MaxRootEntries(p);
    ReadNumber2(p.maxNumRootEntry);
    DivAtMost(bytes - 1, bps);
  }

  /** The root directory takes the fewest sectors that hold all its entries: the ceiling of its size over the sector size. */
  lemma SectorPerRootIsCeiling(p: BIOSParam)
    requires p.WellFormed() && BytesPerSector(p) >= 1 && MaxRootEntries(p) >= 1
    ensures (SectorPerRoot(p) - 1) * BytesPerSector(p) < DIRECTORY_ENTRY_SIZE * MaxRootEntries(p)
    ensures DIRECTORY_ENTRY_SIZE * MaxRootEntries(p) <= SectorPerRoot(p) * BytesPerSector(p)
  {
    var bps, bytes := BytesPerSector(p), DIRECTORY_ENTRY_SIZE * MaxRootEntries(p);
    DivBracket(bytes - 1, bps);
  }

  /** First sector of the data region, where cluster 2 starts. */
  function DataStart(p: BIOSParam): (r: nat)
    requires p.WellFormed() && BytesPerSector(p) >= 1 && MaxRootEntries(p) >= 1
    ensures GetStartSectorRoot(p) < r < 0x120_0000
  {
    SectorPerRootBound(p);
    GetStartSectorRoot(p) + SectorPerRoot(p)
  }

  /**
    First sector of `cluster`, computed as the reader does in `unsigned int`:
    `startSectorOfCluster2 + (cluster - 2) * sectorPerCluster`, so a cluster
    number below 2 wraps around.
   */
  function ClusterFirstSector(p: BIOSParam, cluster: nat): (r: nat)
    requires p.WellFormed() && BytesPerSector(p) >= 1 && MaxRootEntries(p) >= 1
    ensures r < TwoTo32
    ensures 2 <= cluster && DataStart(p) + (cluster - 2) * SectorsPerCluster(p) < TwoTo32 ==>
              r == GetStartSectorRoot(p) + SectorPerRoot(p) + (cluster - 2) * SectorsPerCluster(p)
  {
    var offset := (cluster - 2) * SectorsPerCluster(p);
    assert 2 <= cluster ==> offset >= 0 by {
      if cluster >= 2 {
        MulMonotonic(0, cluster - 2, SectorsPerCluster(p));
      }
    }
    Wrap32(DataStart(p) + offset)
  }

  /** For a cluster number that fits in 16 bits the `unsigned int` arithmetic does not wrap. */
  lemma ClusterFirstSectorExact(p: BIOSParam, k: nat)
    requires p.WellFormed() && BytesPerSector(p) >= 1 && MaxRootEntries(p) >= 1
    requires k <= 0xFFFE
    ensures ClusterFirstSector(p, k + 2) == DataStart(p) + k * SectorsPerCluster(p)
  {
    var spc := SectorsPerCluster(p);
    assert k * spc <= 0xFFFF * 255 by {
      MulMonotonic(k, 0xFFFF, spc);
      MulMonotonic(spc, 255, 0xFFFF);
    }
  }

  /** Clusters within the 16-bit range start after the root directory, `sectorPerCluster` apart. */
  lemma ClusterSectorsAfterRoot(p: BIOSParam, cluster: nat)
    requires p.WellFormed() && BytesPerSector(p) >= 1 && MaxRootEntries(p) >= 1
    requires 2 <= cluster <= 0xFFFF
    ensures GetStartSectorRoot(p) + SectorPerRoot(p) <= ClusterFirstSector(p, cluster)
    ensures ClusterFirstSector(p, cluster + 1) == ClusterFirstSector(p, cluster) + SectorsPerCluster(p)
  {
    var k, spc, start := cluster - 2, SectorsPerCluster(p), DataStart(p);
    assert ClusterFirstSector(p, cluster) == start + k * spc by {
      ClusterFirstSectorExact(p, k);
    }
    assert ClusterFirstSector(p, cluster + 1) == start + (k + 1) * spc by {
      ClusterFirstSectorExact(p, k + 1);
    }
    assert 0 <= k * spc && (k + 1) * spc == k * spc + spc by {
      MulSucc(k, spc);
      MulMonotonic(0, k, spc);
    }
  }

  /** A floppy-style root directory: 224 entries of 32 bytes in 512-byte sectors take 14 sectors. */
  lemma SectorPerRootFloppy(p: BIOSParam)
    requires p.WellFormed() && BytesPerSector(p) == 512 && MaxRootEntries(p) == 224
    ensures SectorPerRoot(p) == 14
  {
  }

  /**
    A mounted FAT12 volume: the image as a sequence of sectors, the parameter
    block, and `pastEnd`, the bytes a sector read beyond the end of the image
    leaves in the sector buffer (the image file ends there, so the buffer keeps
    whatever it held; the model fixes it as an unknown sector).
   */
  datatype Volume = Volume(sectors: seq<seq<byte>>, pastEnd: seq<byte>, bpb: BIOSParam)
  {
    /** Sizes the reader relies on: nonzero divisors, at least one root entry, equal-sized sectors. */
    predicate Valid() {
      && bpb.WellFormed()
      && BytesPerSector(bpb) >= 1
      && SectorsPerCluster(bpb) >= 1
      && MaxRootEntries(bpb) >= 1
      && |pastEnd| == BytesPerSector(bpb)
      && forall k :: 0 <= k < |sectors| ==> |sectors[k]| == BytesPerSector(bpb)
    }

    function Bps(): nat
      requires Valid()
    {
      BytesPerSector(bpb)
    }

    function Spc(): nat
      requires Valid()
    {
      SectorsPerCluster(bpb)
    }

    /** `GetSector(index)` as a pure lookup: the bytes of sector `index` of the image. */
    function GetSector(index: nat): (s: seq<byte>)
      requires Valid()
      ensures |s| == Bps()
    {
      if index < |sectors| then sectors[index] else pastEnd
    }
  }
}
