/**
  Decoding of the FAT12 allocation table: `GetNextCluster` reads the 12-bit
  entry of a cluster, two entries being packed into every three bytes of the
  table that starts right after the reserved sectors.
 */
module Chain {
  import opened Bytes
  import opened Layout
  import opened Geometry

  /** Sector number and offset within the sector of byte `offset`, for sectors of `bps` bytes. */
  function SplitOffset(offset: nat, bps: nat): (r: (nat, nat))
    requires bps >= 1
    ensures r.1 < bps
  {
    (offset / bps, offset % bps)
  }

  /** Byte `i` of the first FAT, counted across sector boundaries. */
  function FatByte(v: Volume, i: nat): byte
    requires v.Valid()
  {
    var (sector, offset) := SplitOffset(i, v.Bps());
    v.GetSector(ReservedSectors(v.bpb) + sector)[offset]
  }

  /**
    The 12-bit entry held by the byte pair `low`, `high`: an even cluster
    owns `low` and the low nibble of `high`, an odd cluster owns the high
    nibble of `low` and all of `high`.
   */
  function Entry12(low: byte, high: byte, odd: bool): (e: nat)
    ensures e <= 0xFFF
  {
    if odd then high * 16 + low / 16 else low + (high % 16) * 256
  }

  /**
    `GetNextCluster(current)`: the FAT entry of `current`, returned as it is —
    only the caller compares it with `EOC`.  The byte offset `3 * current / 2`
    is computed in `unsigned int`.  When the low byte is the last byte of a
    sector, the high byte is fetched from byte 0 of the following sector.
   */
  function GetNextCluster(v: Volume, current: nat): (next: nat)
    requires v.Valid()
    ensures next <= 0xFFF
  {
    var bps, reserved := v.Bps(), ReservedSectors(v.bpb);
    var triple := Wrap32(current * 3);
    var odd := triple % 2;
    var (offsetSectorFat, offsetSector) := SplitOffset(triple / 2, bps);
    var sector := v.GetSector(reserved + offsetSectorFat);
    var low := sector[offsetSector];
    var high :=
      if offsetSector == bps - 1 then v.GetSector(reserved + offsetSectorFat + 1)[0]
      else sector[offsetSector + 1];
    Entry12(low, high, odd == 1)
  }

  /**
    For every cluster number a directory entry can hold, the entry is the
    pair of consecutive FAT bytes at offset `3 * current / 2` — also when the
    pair straddles two sectors.
   */
  lemma NextClusterReadsFatBytes(v: Volume, current: nat)
    requires v.Valid() && current <= 0xFFFF
    ensures var off := 3 * current / 2;
      GetNextCluster(v, current) == Entry12(FatByte(v, off), FatByte(v, off + 1), current % 2 == 1)
  {
    var off := 3 * current / 2;
    assert Wrap32(current * 3) == 3 * current;
    assert (3 * current) % 2 == current % 2;
    DivModSucc(off, v.Bps());
  }

  /** The three bytes that hold FAT12 entries `a` (even cluster) and `b` (the odd cluster after it). */
  function Pack12(a: nat, b: nat): (bytes: seq<byte>)
    requires a <= 0xFFF && b <= 0xFFF
    ensures |bytes| == 3
  {
    [a % 256, a / 256 + (b % 16) * 16, b / 16]
  }

  /**
    Round trip: when the FAT holds `Pack12(a, b)` at byte `3k`, cluster `2k`
    decodes to `a` and cluster `2k + 1` to `b`.
   */
  lemma Pack12RoundTrip(v: Volume, k: nat, a: nat, b: nat)
    requires v.Valid() && 2 * k + 1 <= 0xFFFF
    requires a <= 0xFFF && b <= 0xFFF
    requires [FatByte(v, 3 * k), FatByte(v, 3 * k + 1), FatByte(v, 3 * k + 2)] == Pack12(a, b)
    ensures GetNextCluster(v, 2 * k) == a
    ensures GetNextCluster(v, 2 * k + 1) == b
  {
    var even, odd := 2 * k, 2 * k + 1;
    PackedEntries(a, b);
    assert GetNextCluster(v, even) == a by {
      NextClusterReadsFatBytes(v, even);
      DivModUnique(3 * even, 2, 3 * k, 0);
      DivModUnique(even, 2, k, 0);
    }
    assert GetNextCluster(v, odd) == b by {
      NextClusterReadsFatBytes(v, odd);
      DivModUnique(3 * odd, 2, 3 * k + 1, 1);
      DivModUnique(odd, 2, k, 1);
    }
  }

  lemma PackedEntries(a: nat, b: nat)
    requires a <= 0xFFF && b <= 0xFFF
    ensures var p := Pack12(a, b);
      Entry12(p[0], p[1], false) == a && Entry12(p[1], p[2], true) == b
  {
  }

  /** Any three FAT bytes are the packing of the two entries they decode to. */
  lemma Unpack12RoundTrip(x: byte, y: byte, z: byte)
    ensures Pack12(Entry12(x, y, false), Entry12(y, z, true)) == [x, y, z]
  {
  }

  /**
    Hand-computed window: with FAT bytes `03 40 00` at the start of the
    table, cluster 0 decodes to 0x003 and cluster 1 to 0x004.
   */
  lemma FatWindowExample(v: Volume)
    requires v.Valid()
    requires FatByte(v, 0) == 0x03 && FatByte(v, 1) == 0x40 && FatByte(v, 2) == 0x00
    ensures GetNextCluster(v, 0) == 0x003 && GetNextCluster(v, 1) == 0x004
  {
    NextClusterReadsFatBytes(v, 0);
    NextClusterReadsFatBytes(v, 1);
  }
}
