# FAT12 reader core in Dafny

This project models the read-only FAT12 layer of `FAT.c` together with the
on-disk records and constants of `FAT.h`:

- the BIOS Parameter Block and the volume geometry derived from it (`FatInit`,
  `GetStartSectorRoot`, `SectorPerRoot`, first sector of a cluster);
- decoding of the 12-bit allocation table (`GetNextCluster`);
- the directory-entry decoders (`ReadNumber`, `GetSizeofFile`, `GetName`,
  `GetFileType`, `GetFileModifiedDate`, `GetFileModifiedTime`);
- the ordinal directory scan (`GetEntry`);
- the file cursor (`OpenFile`, `Fseek`, `Fread`, `CloseFile`).

The disk image is an immutable value: a `Volume` holds a sequence of sectors
and the parameter block, and `GetSector(k)` is a pure lookup. The C globals
(`g_biosParam`, the open image) become that `Volume`, which is passed as a
parameter. Unsigned 32-bit arithmetic that can wrap is written out with
`Wrap32`. Bit masks and shifts are written as division and remainder by
powers of two.

Modules, one per part of the program:

| file | module | contents |
|---|---|---|
| `Bytes.dfy` | `Bytes` | bytes, `ReadNumber`, 32-bit wrap-around, arithmetic lemmas |
| `Layout.dfy` | `Layout` | `DirectoryEntry`, `BIOSParam`, `Date`, `Time`, the `FAT.h` constants |
| `Geometry.dfy` | `Geometry` | `FatInit`, root and data-region sectors, `Volume` |
| `Chain.dfy` | `Chain` | `GetNextCluster` and the 12-bit packing |
| `EntryFields.dfy` | `EntryFields` | size, name, extension, date and time of an entry |
| `Directory.dfy` | `Directory` | `GetEntry` |
| `Cursor.dfy` | `Cursor` | the `File` class: `OpenFile`, `Fseek`, `Fread`, `CloseFile` |

The code is followed wherever it and the FAT format disagree:

- Only `0xFFF` ends a chain. `GetNextCluster` returns the raw entry, so the
  values `0xFF8`–`0xFFE`, which the FAT format also reserves for the end of a
  chain, are followed as cluster numbers.
- The minute mask is five bits wide, so bit 10 of the time word (the top bit
  of the format's six-bit minute field) is dropped.
- `Fseek` with `F_SEEK_SET` zeroes the byte and sector but keeps the current
  cluster.
- `Fread` never consults the file size. With one sector per cluster it never
  fetches a second sector.
- `GetEntry` counts deleted and end-of-directory entries. Its scan bounds
  are off by one (see "## Findings").

## Model

| member | source | states |
|---|---|---|
| Bytes.Wrap32 | FAT.c:270 | the value an `unsigned int` keeps is below 2^32 and equals the mathematical value when that fits |
| Bytes.ReadNumber | FAT.c:158-170 | an n-byte little-endian number is below 256^n |
| Bytes.ReadNumberIsLittleEndian | FAT.c:158-170 | `ReadNumber` equals the sum of `s[i] * 256^i`, the reference little-endian definition |
| Bytes.ReadNumberToLittleEndian | FAT.c:158-170 | decoding the k-byte little-endian encoding of a number below 256^k gives the number back |
| Bytes.ToLittleEndianReadNumber | FAT.c:158-170 | encoding a decoded byte string gives the bytes back |
| Bytes.ReadNumber2 | FAT.c:158-170 | a two-byte field decodes to `low + 256 * high`, below 65536 |
| Layout.ParseEntry | FAT.h:36-51 | the cast of 32 bytes to `DirectoryEntry` gives fields of the declared widths |
| Layout.SerializeEntry | FAT.h:36-51 | a directory entry occupies exactly 32 bytes |
| Layout.EntryFieldOffsets | FAT.h:36-51 | name at 0, extension at 8, attributes at 11, times and dates at 14, 16, 22, 24, start cluster at 26, size at 28 |
| Layout.EntryRoundTrip | FAT.h:36-51 | reading and writing a directory entry are inverse in both directions |
| Layout.ParseBIOSParam | FAT.h:56-70 | the 25 bytes of the parameter block give fields of the declared widths |
| Layout.SerializeBIOSParam | FAT.h:56-70 | the parameter block occupies exactly 25 packed bytes |
| Layout.BIOSParamFieldOffsets | FAT.h:56-70 | bytePerSector, secPerCluster, numReservedSector, numFAT, maxNumRootEntry and sectorPerFAT sit at block offsets 0, 2, 3, 5, 6, 11 |
| Layout.BIOSParamRoundTrip | FAT.h:56-70 | reading and writing the parameter block are inverse in both directions |
| Geometry.FatInit | FAT.c:363-375 | the 25 bytes at offset 0x0B of sector 0 become the parameter block; its fields equal the little-endian values at absolute offsets 0x0B, 0x0D, 0x0E, 0x10, 0x11, 0x16 |
| Geometry.FieldsAtSectorOffsets | FAT.h:9 | a block copied from offset 0x0B holds the six fields the reader uses at their absolute sector offsets |
| Geometry.GetStartSectorRoot | FAT.c:179-189 | the root directory starts at or after the reserved sectors, below 2^24 (no `unsigned int` wrap) |
| Geometry.FatRegionBounds | FAT.c:179-189 | the reserved sectors and all FAT copies span fewer than 2^24 sectors |
| Geometry.SectorPerRoot | FAT.c:232-240 | with at least one root entry the root directory takes at least one sector |
| Geometry.SectorPerRootBound | FAT.c:232-240 | with at least one root entry the root directory takes at most 32 * 0xFFFF sectors, so nothing wraps |
| Geometry.SectorPerRootIsCeiling | FAT.c:232-240 | the result is the ceiling of `32 * maxNumRootEntry / bytePerSector`: r sectors hold the root entries and r - 1 do not |
| Geometry.DataStart | FAT.c:267 | cluster 2 starts after the start of the root directory and below 0x1200000, so later cluster arithmetic fits in 32 bits |
| Geometry.ClusterFirstSector | FAT.c:283-284 | a cluster starts at `rootStart + SectorPerRoot + (c - 2) * secPerCluster` when that fits in 32 bits; the result always fits |
| Geometry.ClusterFirstSectorExact | FAT.c:283-284 | for every 16-bit cluster number the formula does not wrap |
| Geometry.ClusterSectorsAfterRoot | FAT.c:283-286 | 16-bit clusters start after the root directory and `secPerCluster` sectors apart |
| Geometry.SectorPerRootFloppy | FAT.c:232-240 | 224 root entries in 512-byte sectors take 14 sectors |
| Geometry.Volume.GetSector | HAL.h:12-19 | a sector lookup yields `bytePerSector` bytes |
| Chain.SplitOffset | FAT.c:401-403 | the offset within a FAT sector is below `bytePerSector` |
| Chain.Entry12 | FAT.c:420-427 | a decoded FAT entry fits in 12 bits |
| Chain.GetNextCluster | FAT.c:382-431 | the next cluster is at most 0xFFF |
| Chain.NextClusterReadsFatBytes | FAT.c:400-427 | for a 16-bit cluster, the entry is decoded from the two consecutive FAT bytes at `3n / 2`, also when they straddle two sectors (the high byte then comes from byte 0 of the next sector) |
| Chain.Pack12 | FAT.c:420-427 | two 12-bit entries pack into three bytes |
| Chain.Pack12RoundTrip | FAT.c:382-431 | when the FAT holds `Pack12(a, b)` at byte 3k, cluster 2k decodes to a and cluster 2k+1 to b |
| Chain.PackedEntries | FAT.c:420-427 | the even and odd decoders invert the packing |
| Chain.Unpack12RoundTrip | FAT.c:420-427 | any three FAT bytes are the packing of the two entries they decode to |
| Chain.FatWindowExample | FAT.c:382-431 | FAT bytes `03 40 00` decode cluster 0 to 0x003 and cluster 1 to 0x004 |
| EntryFields.GetSizeofFile | FAT.c:44-48 | the size is the little-endian value of the four size bytes, below 2^32 |
| EntryFields.GetFileModifiedDate | FAT.c:124-130 | day ≤ 31, month ≤ 15, year ≤ 127, and `day + 32 * month + 512 * year` rebuilds the date word |
| EntryFields.DateWordSplit | FAT.c:11-16 | the three date fields partition the 16 bits of the word |
| EntryFields.DateRoundTrip | FAT.c:124-130 | decoding the encoding of a date with in-range fields gives the date back |
| EntryFields.GetFileModifiedTime | FAT.c:142-148 | seconds, minutes and hours are each ≤ 31, and together with bit 10 they rebuild the time word |
| EntryFields.TimeWordSplit | FAT.c:18-23 | the five-bit minute mask leaves bit 10 outside every field |
| EntryFields.TimeRebuildsWordIffBit10Clear | FAT.c:142-148 | the decoded fields rebuild the time word if and only if its bit 10 is clear |
| EntryFields.TrimPadding | FAT.c:70-75 | trimming keeps a prefix of at least one byte, ending in a non-space unless only one byte remains |
| EntryFields.TrimRemovesOnlySpaces | FAT.c:70-75 | every byte trimming removes is a space |
| EntryFields.CString | FAT.c:79 | a C string is the prefix of its buffer before the first NUL |
| EntryFields.CStringStopsAtNul | FAT.c:79 | a buffer's C string ends at or before any NUL in it |
| EntryFields.TrimExtraSpace | FAT.c:66-67 | the extra space written after the field does not change the trimmed field |
| EntryFields.TrimLoop | FAT.c:70-75 | the trim loop leaves a buffer whose C string is the trimmed field |
| EntryFields.TrimFinish | FAT.c:70-75 | where the trim loop stops, the C string left is the trimmed field |
| EntryFields.TrimStep | FAT.c:71-74 | overwriting one more trailing space keeps the trimmed field |
| EntryFields.TrimDone | FAT.c:71 | a prefix ending in a non-space (or of one byte) is its own trimmed form |
| EntryFields.GetFileType | FAT.c:99-112 | the extension is the C string of the space-trimmed three-byte field, at most 3 bytes |
| EntryFields.GetBaseName | FAT.c:62-75 | the name part is the C string of the space-trimmed eight-byte field, at most 8 bytes |
| EntryFields.GetName | FAT.c:60-87 | the full name is the trimmed name, followed by "." and the trimmed extension only when attribute bit 0x10 is clear; it and its NUL fit in 14 bytes |
| Directory.SlotsFrom | FAT.c:471-489 | a sector contributes one slot per index from t up to the slot count |
| Directory.SlotsFromIndex | FAT.c:471-489 | element k of a sector's slot list is the slot at byte 32(t + k) |
| Directory.ScanFrom | FAT.c:469-505 | the loop, one iteration per step: it can end in an over-read only when more slots per sector are visited than whole entries fit in a sector |
| Directory.SectorSlotsAsWritten | FAT.c:471-489 | as written, a sector's slots are its whole entries followed by one slot that is not whole, whose attribute byte lies past the buffer exactly when fewer than 12 bytes follow the last whole entry |
| Directory.ScanFromIsPick | FAT.c:469-505 | the loop's step-by-step scan equals `Pick` over the slots it has still to visit |
| Directory.ScanSlot | FAT.c:479-503 | one slot: an attribute byte past the buffer ends the scan with an over-read; otherwise the count rises unless the attribute is 0x0F, and once the count reaches the index the slot is copied out, which over-reads when the slot is cut off by the end of the buffer |
| Directory.ScanNextSector | FAT.c:471-477 | past the last slot of a sector the scan resumes at slot 0 of the next sector |
| Directory.Counted | FAT.c:482-485 | the number of counted slots is at most the number of slots |
| Directory.PickOutcomeFromSlots | FAT.c:469-505 | `Pick`, the scan's specification over a list of slots, reports only what the slots hold: a found entry is one of the slots, and "not found" means every slot's attribute byte lay inside the buffer |
| Directory.PickPrefixDecides | FAT.c:469-505 | once a prefix of the slots decides the scan, the slots after it do not change the outcome |
| Directory.PickSkipsCounted | FAT.c:482-489 | counted slots before the index is reached only raise the count |
| Directory.IndexZeroTakesFirst | FAT.c:482-491 | with `entryIndex` 0 the count is never below the index, so the first slot is taken whatever its attribute |
| Directory.PickFoundIsNth | FAT.c:469-505 | a found entry is a counted slot with exactly `entryIndex - 1` counted slots before it, none of which has its attribute byte past the buffer |
| Directory.NthIsPicked | FAT.c:469-505 | conversely, the whole counted slot with `entryIndex - 1` counted slots before it, all with their attribute bytes inside the buffer, is the one found |
| Directory.EndAndDeletedCounted | FAT.c:482-485 | entries whose name starts with 0x00 or 0xE5 are counted and do not stop the scan |
| Directory.LongNameSkipped | FAT.c:482-485 | a long-name entry (attribute exactly 0x0F) is passed over without being counted |
| Directory.GetEntry | FAT.c:433-510 | the outcome is `Pick` over the slots the code as written visits; on `Found` the 32 bytes are copied out, otherwise the buffer is untouched |
| Directory.GetEntryIntended | FAT.c:433-510 | with corrected bounds the outcome is `Pick` over whole entries of the directory's sectors, never an over-read, with the same buffer behaviour |
| Directory.DirFirstSector | FAT.c:447-460 | the sector the scan starts at is an `unsigned int` value |
| Directory.DirEndSector | FAT.c:447-464 | `endSector` is an `unsigned int` value, and for the root directory it is the first sector of cluster 2 |
| Directory.DirRegion | FAT.c:447-464 | the scan starts at the root directory for cluster 0 and at the cluster's first sector otherwise, and `endSector` is computed in `unsigned int` |
| Directory.ScanDirectory | FAT.c:466-505 | the loop's outcome is `Pick` over the slots of its sectors, for the written and for the corrected bounds, and the buffer changes only on `Found` |
| Directory.SlotCountBounds | FAT.c:471 | `byteOffset > bytePerSec` fetches a new sector after `bytePerSec / 32 + 1` slots; the corrected test after `bytePerSec / 32` |
| Directory.CopyEntry | FAT.c:494-502 | the copy loop puts the slot's 32 bytes in the output buffer |
| Directory.NoOverRead | FAT.c:469-505 | a scan of whole entries never over-reads |
| Directory.IntendedSlotsWhole | FAT.c:471 | with `bytePerSec / 32` slots per sector every slot is a whole entry |
| Directory.IntendedNeverOverReads | FAT.c:469-471 | the corrected scan never over-reads |
| Directory.PickStopsAtPastBuffer | FAT.c:469-505 | a scan ends at the first slot whose attribute byte lies past the buffer at the latest, and is then never "not found" |
| Directory.AsWrittenFromFirstSector | FAT.c:447-469 | as written, the scan lists the first sector's slots and then those of at least one sector after it |
| Directory.AsWrittenStaysInFirstSector | FAT.c:469-505 | as written, when fewer than 12 bytes follow a sector's last whole entry (every sector size a multiple of 32), the scan reads the next slot's attribute byte past the first sector's buffer before it could leave that sector; in the model, which stops there, it never reports "not found" |
| Directory.DirRegionBounds | FAT.c:447-464 | the root scan covers `GetStartSectorRoot` up to `SectorPerRoot` sectors on; a 16-bit subdirectory cluster covers its `secPerCluster` sectors after the root |
| Directory.AsWrittenOverReads | FAT.c:469-505 | as written, asking for one entry more than a fully counted first sector holds reads past the sector buffer, whatever the sector size |
| Directory.SectorOverReads | FAT.c:471-503 | the same for one sector and whatever slots follow it |
| Directory.AsWrittenLeavesFirstSector | FAT.c:469-489 | as written, when 12 or more bytes follow a sector's last whole entry, a long-name attribute there is passed over and the scan finds the first entry of the next sector |
| Directory.SectorPassesOver | FAT.c:471-503 | the same for two sectors and whatever slots follow them |
| Directory.AsWrittenScansEndSector | FAT.c:469 | as written, the slots listed for the loop end with those of sector `endSector`, which is the first sector of cluster 2 for the root directory and the first sector of the next cluster for a subdirectory |
| Directory.IntendedScansRegionOnly | FAT.c:447-469 | corrected, the scan lists exactly `bytePerSec / 32` slots for each of the `SectorPerRoot` root sectors, or of the `secPerCluster` sectors of a subdirectory's cluster, and every one of them is a whole entry |
| Directory.DirSlotsLength | FAT.c:469-477 | the slot list holds `count` slots for every sector of the region |
| Directory.AllCountedUntilLast | FAT.c:480-503 | with every whole slot counted, index `count + 1` over-reads at the final slot, whether its attribute byte lies past the buffer or it is counted and copied |
| Cursor.Step | FAT.c:337-359 | one seek step keeps the byte and sector in range, an `EOC` cursor stays at `EOC`, and inside a sector it only moves the byte |
| Cursor.Advance | FAT.c:335-360 | any number of steps keeps the cursor in range and keeps an `EOC` cursor at `EOC` |
| Cursor.AdvanceSucc | FAT.c:335-360 | n + 1 steps are one step after n steps |
| Cursor.StepFacts | FAT.c:290-295 | each pass of the inner read loop advances the cursor by one seek step within range |
| Cursor.AdvanceAdditive | FAT.c:323-361 | seeking a bytes and then b bytes is seeking a + b bytes |
| Cursor.AdvanceWithinSector | FAT.c:337-340 | inside a sector, n steps add n to the byte index only |
| Cursor.RunInSector | FAT.c:290-295 | a run of steps inside one sector passes over consecutive bytes of it |
| Cursor.RunCopied | FAT.c:290-295 | bytes copied while the cursor stays in the fetched sector are the image bytes under the cursor |
| Cursor.AdvanceOneSector | FAT.c:335-360 | seeking one sector's worth of bytes moves to the next sector, or to the next cluster from the FAT, or stays at `EOC` |
| Cursor.SectorIndex | FAT.c:283-286 | the absolute sector `Fread` fetches is an `unsigned int` value |
| Cursor.SectorIndexInCluster | FAT.c:283-286 | for a 16-bit cluster and a sector inside it, the fetched sector is that sector of the cluster, before the next cluster starts |
| Cursor.FatSectorLastRead | FAT.c:400-412 | the sector the shared buffer holds after `GetNextCluster` lies at or after the reserved sectors |
| Cursor.FatSectorLastReadHoldsHighByte | FAT.c:400-412 | for a 16-bit cluster it is the FAT sector holding the high byte of the cluster's entry, byte `3 * cluster / 2 + 1` of the table |
| Cursor.FirstEoc | FAT.c:273-307 | the first count at which the cursor is at `EOC`: none before it, `EOC` at it |
| Cursor.FirstEocUnique | FAT.c:273-307 | that count is the only one with no `EOC` before it and `EOC` (or the end) at it |
| Cursor.ReadLength | FAT.c:273-307 | at most the request; none when the cursor starts at `EOC` |
| Cursor.ReadLengthStopsAtEoc | FAT.c:273-307 | with two or more sectors per cluster every copied byte was read off `EOC`, and a short read ends at `EOC` |
| Cursor.InSectorEnd | FAT.c:290-295 | the count at which a run leaves the sector it fetched, if it gets there: the bytes before it lie in that sector |
| Cursor.ExtendRun | FAT.c:292 | writing one more byte extends the part copied from the fetched sector while the cursor is still in it, and keeps the rest of the buffer |
| Cursor.RunRead | FAT.c:290-295 | after a run, the cursor is as many steps past the read's start as bytes were copied, and each byte copied before the cursor left the fetched sector is the image byte under the cursor at its count; with two or more sectors per cluster that is every byte of the run |
| Cursor.File.OpenFile | FAT.c:198-209 | `OpenFile` puts the cursor at byte 0 of sector 0 of the start cluster, the little-endian start-cluster field |
| Cursor.File.CloseFile | FAT.c:218-223 | closing changes nothing the model observes |
| Cursor.File.Fseek | FAT.c:323-361 | the new cursor is `offset` steps past the old one (`F_SEEK_CUR`) or past byte 0 of sector 0 of the current cluster (`F_SEEK_SET`); the start cluster never changes, the cursor stays in range, `EOC` stays `EOC` |
| Cursor.File.CopySector | FAT.c:277-295 | one round of the outer read loop copies at least one byte and moves the cursor as many steps; every byte copied before the cursor leaves the fetched sector is the image byte under the cursor at its count, and with two or more sectors per cluster that is every byte copied |
| Cursor.File.CopyRun | FAT.c:277-295 | the fetch and the inner loop copy consecutive bytes of the fetched sector while the cursor stays in it, and go on until the request ends or the sector index changes |
| Cursor.File.CopyByte | FAT.c:292-294 | one byte is copied from the sector buffer and the cursor steps once; after a cluster crossing the shared buffer holds the FAT sector last read |
| Cursor.File.Fread | FAT.c:257-310 | the cursor advances one step per copied byte; the result is 1 exactly when the whole request was copied; a 0 result leaves the cursor at `EOC`; the tail past the copied bytes is zero; the buffer past the request is untouched; every copied byte j before the cursor first leaves its starting sector is the image byte at the cursor after j steps, and with two or more sectors per cluster every copied byte is |
| Cursor.ZeroFill | FAT.c:299-303 | the rest of the request is zeroed and nothing else changes |
| Cursor.ReadStopsHere | FAT.c:273-307 | the point where the read loop stops copying is `ReadLength` |

## Left out

- HAL.c is not part of this model. `GetSector` is a pure lookup into the
  `Volume`, and opening and closing the image are left out. `FatInit`
  receives the bytes of sector 0.
- The sector cache and the single shared sector buffer are not modelled as
  memory. The sharing changes a result in two places. The first is `Fread`
  with one sector per cluster; there `Cursor.File.CopyByte` names the FAT
  sector the buffer then holds. The second is the cache test of HAL.c:35-37:
  the cached position is set only when the image is opened, so a later
  `GetSector(0)` returns whatever sector was read last. Sector 0 is read
  again with zero reserved sectors, or when a cluster number below 2 makes
  an `unsigned int` sector index wrap around to 0: `Fread` on a file whose
  start cluster is 0 (an empty file), or `GetEntry` with `startCluster` 1.
  This is not modelled; the model's `GetSector(0)` is always sector 0.
- Reads past the end of the image leave the shared buffer as it was. The model
  returns a fixed, unknown sector `pastEnd` instead.
- `malloc` and `free` in `OpenFile` and `CloseFile` become a constructor and a
  method that does nothing.
- View.c, main.c and main2.c (console output, the interactive loop, the demo
  program) are not part of this model.
- Geometry.SectorPerRoot: requires at least one root entry. With none, the
  C subtraction wraps in `size_t`, and the result depends on the platform.
- Volume.Valid also requires nonzero `bytePerSector` and `secPerCluster`,
  because the C code divides by the one and subtracts one from both.
- Bytes.ReadNumber: requires at most eight bytes, the width of the `uint64_t`
  accumulator. Every caller passes two or four.
- Cursor.File.Fseek: the offset is unbounded. The C loop counter is an `int`,
  so offsets of 2^31 or more overflow it, and that is not modelled.
- Cursor.File.Fread: with one sector per cluster, the bytes copied after the
  cursor first leaves its starting sector are not stated. They come from
  whatever the shared buffer holds (see `Cursor.File.CopyByte`).
- Directory.GetEntry: where the C code reads beyond the sector buffer, the
  model stops with the outcome `OverRead` instead of going on with
  undefined bytes. That is the attribute byte of a slot starting 11 or
  fewer bytes before the end of the buffer, or the copy of a taken slot cut
  off by the end. A slot whose attribute byte lies inside the buffer and
  is not taken reads nothing beyond it, and the scan goes on.
- Directory.GetEntry: `SecOffset++` is not wrapped. This only matters when
  `endSector` is 0xFFFFFFFF.
- Directory.AsWrittenStaysInFirstSector: requires a cluster number of 0, or
  of 2 to 0xFFFF. With 1, `(startCluster - 2)` wraps, and larger values can
  make the region wrap around 2^32.
- The bit-field masks are written as division and remainder, not as bit
  operations on `bv16`.

## Findings

| source | as written | input that shows it | evidently intended | confidence | as-written member | corrected member |
|---|---|---|---|---|---|---|
| FAT.c:471 | `byteOffset > bytePerSec` moves on only after `bytePerSec / 32 + 1` slots of a sector | 512-byte sectors, a root directory whose first sector holds 16 counted entries, `entryIndex` 17: the 17th slot is bytes 512–543 of a 512-byte buffer. The scan reaches that slot before it could leave the first sector, and its attribute test reads undefined memory. With sector sizes that leave 12 or more bytes after the last whole entry, a counted partial slot is copied out past the buffer instead, and one with the long-name attribute lets the scan go on into the next sector | visit only the `bytePerSec / 32` whole entries of each sector | high (not executed) | Directory.AsWrittenOverReads | Directory.GetEntryIntended |
| FAT.c:469 | `SecOffset <= endSector` also admits sector `endSector`, the first sector past the directory's region | 512-byte sectors and 224 root entries (14 root sectors): the loop bound admits root sector 14, which is the first sector of cluster 2. With such sector sizes (fewer than 12 bytes after the last whole entry) the loop gets there only past the over-read above; with other sizes, such as 44-byte sectors, it gets there when each earlier sector's partial slot carries the long-name attribute | scan the sectors before `endSector` only | medium (not executed) | Directory.AsWrittenScansEndSector | Directory.IntendedScansRegionOnly |
