/**
  The on-disk records and constants of the FAT12 reader: the 32-byte
  directory entry, the 25-byte BIOS Parameter Block that follows the jump
  instruction and OEM name in sector 0, the decoded date and time, and the
  sentinel values of names, attributes, cluster chains and seek origins.
  Multi-byte fields are kept as the little-endian byte strings the C
  structures hold; `Bytes.ReadNumber` turns them into numbers.
 */
module Layout {
  import opened Bytes

  /** Byte offset of the BIOS Parameter Block inside sector 0. */
  const BIOS_PARAM_OFFSET: nat := 0x00B
  /** The one cluster value the reader treats as the end of a chain. */
  const EOC: nat := 0xFFF
  const YEAR_OFFSET: nat := 1980

  /* First byte of a directory entry's name. */
  const ENTRY_EMPTY: byte := 0x00    // this and every later entry are unused
  const ENTRY_E5: byte := 0x05       // the name really starts with 0xE5
  const ENTRY_DOT: byte := 0x2E      // "." or ".."
  const ENTRY_DELETED: byte := 0xE5  // erased entry

  /* Attribute bits of a directory entry. */
  const ENTRY_NORMAL: byte := 0x00
  const ENTRY_READONLY: byte := 0x01
  const ENTRY_HIDDEN: byte := 0x02
  const ENTRY_SYSTEM: byte := 0x04
  const ENTRY_VOLUME: byte := 0x08
  const ENTRY_DIRECTORY: byte := 0x10
  const ENTRY_ARCHIVE: byte := 0x20
  const ENTRY_DEVICE: byte := 0x40
  /** An attribute byte equal to this marks a long-file-name continuation entry. */
  const ENTRY_NAME: byte := 0x0F

  /* Seek origins. */
  const F_SEEK_SET: int := 0
  const F_SEEK_CUR: int := 1

  const DIRECTORY_ENTRY_SIZE: nat := 32
  const BIOS_PARAM_SIZE: nat := 25

  /** `struct _directoryEntry`: 32 packed bytes, fields in on-disk order. */
  datatype DirectoryEntry = DirectoryEntry(
    name: seq<byte>,           // 8 bytes, space padded
    extension: seq<byte>,      // 3 bytes, space padded
    attributes: byte,
    dontCare1: byte,
    dontCare2: byte,
    creatTime: seq<byte>,      // 2 bytes
    creatDate: seq<byte>,      // 2 bytes
    dontCare3: seq<byte>,      // 2 bytes
    dontCare4: seq<byte>,      // 2 bytes
    modifiedTime: seq<byte>,   // 2 bytes
    modifiedDate: seq<byte>,   // 2 bytes
    startClusters: seq<byte>,  // 2 bytes
    size: seq<byte>)           // 4 bytes
  {
    /** Every array field has the width the C structure gives it. */
    predicate WellFormed() {
      && |name| == 8 && |extension| == 3
      && |creatTime| == 2 && |creatDate| == 2 && |dontCare3| == 2 && |dontCare4| == 2
      && |modifiedTime| == 2 && |modifiedDate| == 2 && |startClusters| == 2 && |size| == 4
    }

    /** Bit 0x10 of the attribute byte. */
    predicate IsDirectory() { (attributes / ENTRY_DIRECTORY) % 2 == 1 }
  }

  /** The entry the 32 bytes `b` hold, as a cast of a sector pointer to `DirectoryEntry *` reads it. */
  function ParseEntry(b: seq<byte>): (e: DirectoryEntry)
    requires |b| == DIRECTORY_ENTRY_SIZE
    ensures e.WellFormed()
  {
    DirectoryEntry(b[0..8], b[8..11], b[11], b[12], b[13], b[14..16], b[16..18],
                   b[18..20], b[20..22], b[22..24], b[24..26], b[26..28], b[28..32])
  }

  /** The 32 bytes a well-formed entry occupies on disk. */
  function SerializeEntry(e: DirectoryEntry): (b: seq<byte>)
    requires e.WellFormed()
    ensures |b| == DIRECTORY_ENTRY_SIZE
  {
    e.name + e.extension + [e.attributes, e.dontCare1, e.dontCare2] + e.creatTime + e.creatDate
    + e.dontCare3 + e.dontCare4 + e.modifiedTime + e.modifiedDate + e.startClusters + e.size
  }

  /** Field offsets of the directory entry: attributes at 11, times, dates, start cluster and size at 22, 24, 26, 28. */
  lemma EntryFieldOffsets(e: DirectoryEntry)
    requires e.WellFormed()
    ensures var b := SerializeEntry(e);
      && b[0..8] == e.name && b[8..11] == e.extension && b[11] == e.attributes
      && b[14..16] == e.creatTime && b[16..18] == e.creatDate
      && b[22..24] == e.modifiedTime && b[24..26] == e.modifiedDate
      && b[26..28] == e.startClusters && b[28..32] == e.size
  {
  }

  /** Reading 32 bytes as an entry and writing the entry back gives the same bytes, and vice versa. */
  lemma EntryRoundTrip(b: seq<byte>, e: DirectoryEntry)
    requires |b| == DIRECTORY_ENTRY_SIZE && e.WellFormed()
    ensures SerializeEntry(ParseEntry(b)) == b
    ensures ParseEntry(SerializeEntry(e)) == e
  {
    assert SerializeEntry(ParseEntry(b)) == b;
    EntryFieldOffsets(e);
  }

  /** `struct _tagBIOSParam`: the 25 packed bytes at offset 0x0B of sector 0. */
  datatype BIOSParam = BIOSParam(
    bytePerSector: seq<byte>,      // 2 bytes
    secPerCluster: byte,
    numReservedSector: seq<byte>,  // 2 bytes
    numFAT: byte,
    maxNumRootEntry: seq<byte>,    // 2 bytes
    totalSectors: seq<byte>,       // 2 bytes
    mediaType: byte,
    sectorPerFAT: seq<byte>,       // 2 bytes
    sectorPerTrack: seq<byte>,     // 2 bytes
    numHeads: seq<byte>,           // 2 bytes
    numHiddenSectors: seq<byte>,   // 4 bytes
    numSectors: seq<byte>)         // 4 bytes
  {
    predicate WellFormed() {
      && |bytePerSector| == 2 && |numReservedSector| == 2 && |maxNumRootEntry| == 2
      && |totalSectors| == 2 && |sectorPerFAT| == 2 && |sectorPerTrack| == 2
      && |numHeads| == 2 && |numHiddenSectors| == 4 && |numSectors| == 4
    }
  }

  /** The parameter block the 25 bytes `b` hold, in the field order of the C structure. */
  function ParseBIOSParam(b: seq<byte>): (p: BIOSParam)
    requires |b| == BIOS_PARAM_SIZE
    ensures p.WellFormed()
  {
    BIOSParam(b[0..2], b[2], b[3..5], b[5], b[6..8], b[8..10], b[10], b[11..13],
              b[13..15], b[15..17], b[17..21], b[21..25])
  }

  /** The 25 bytes a well-formed parameter block occupies. */
  function SerializeBIOSParam(p: BIOSParam): (b: seq<byte>)
    requires p.WellFormed()
    ensures |b| == BIOS_PARAM_SIZE
  {
    p.bytePerSector + [p.secPerCluster] + p.numReservedSector + [p.numFAT] + p.maxNumRootEntry
    + p.totalSectors + [p.mediaType] + p.sectorPerFAT + p.sectorPerTrack + p.numHeads
    + p.numHiddenSectors + p.numSectors
  }

  /**
    Field offsets of the parameter block, counted from the start of the block;
    adding `BIOS_PARAM_OFFSET` gives 0x0B, 0x0D, 0x0E, 0x10, 0x11 and 0x16 for
    the six fields the reader uses.
   */
  lemma BIOSParamFieldOffsets(p: BIOSParam)
    requires p.WellFormed()
    ensures var b := SerializeBIOSParam(p);
      && b[0..2] == p.bytePerSector && b[2] == p.secPerCluster
      && b[3..5] == p.numReservedSector && b[5] == p.numFAT
      && b[6..8] == p.maxNumRootEntry && b[11..13] == p.sectorPerFAT
  {
    var b := SerializeBIOSParam(p);
    assert b[0..2] == p.bytePerSector && b[2] == p.secPerCluster;
    assert b[3..5] == p.numReservedSector && b[5] == p.numFAT;
    assert b[6..8] == p.maxNumRootEntry && b[11..13] == p.sectorPerFAT;
  }

  /** Parsing and serialising the parameter block are inverse. */
  lemma BIOSParamRoundTrip(b: seq<byte>, p: BIOSParam)
    requires |b| == BIOS_PARAM_SIZE && p.WellFormed()
    ensures SerializeBIOSParam(ParseBIOSParam(b)) == b
    ensures ParseBIOSParam(SerializeBIOSParam(p)) == p
  {
    assert SerializeBIOSParam(ParseBIOSParam(b)) == b;
    assert ParseBIOSParam(SerializeBIOSParam(p)) == p by {
      var s := SerializeBIOSParam(p);
      assert s[13..15] == p.sectorPerTrack && s[15..17] == p.numHeads;
      assert s[17..21] == p.numHiddenSectors && s[21..25] == p.numSectors;
      assert s[8..10] == p.totalSectors && s[10] == p.mediaType;
      assert s[0..2] == p.bytePerSector && s[2] == p.secPerCluster;
      assert s[3..5] == p.numReservedSector && s[5] == p.numFAT;
      assert s[6..8] == p.maxNumRootEntry && s[11..13] == p.sectorPerFAT;
    }
  }

  /** The decoded modification date; `year` counts from `YEAR_OFFSET`. */
  datatype Date = Date(day: nat, month: nat, year: nat)

  /** The decoded modification time; `seconds` is in two-second units. */
  datatype Time = Time(seconds: nat, minutes: nat, hours: nat)
}
