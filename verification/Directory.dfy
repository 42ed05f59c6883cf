/**
  `GetEntry`: the ordinal directory scan.  The scan walks the 32-byte slots
  of the directory's sectors, counting every slot whose attribute byte is not
  the long-name marker, and copies out the slot at which the count reaches
  the requested index.

  The specification is a list of slots: `DirSlots` lists the slots the loop
  visits, sector after sector, and `Pick` scans such a list.  A slot whose
  32 bytes do not all lie inside the sector buffer is `Partial` when its
  attribute byte (offset 11) still does, and `PastBuffer` otherwise.  The C
  code reads beyond the buffer when it tests the attribute of a `PastBuffer`
  slot, or when it copies out a `Partial` slot it takes; the bytes there are
  undefined, and the model stops with the outcome `OverRead` instead of
  inventing them.  A `Partial` slot that is not taken reads only bytes
  inside the buffer, and the scan goes on.
 */
module Directory {
  import opened Bytes
  import opened Layout
  import opened Geometry

  /** The 32 bytes of one directory slot. */
  type EntryBytes = b: seq<byte> | |b| == DIRECTORY_ENTRY_SIZE witness seq(32, _ => 0)

  /**
    One slot the scan reaches: a whole entry, a slot cut off by the end of
    the buffer after its attribute byte, or one whose attribute byte lies
    beyond the buffer.
   */
  datatype Slot = Entry(bytes: EntryBytes) | Partial(attribute: byte) | PastBuffer

  /**
    The outcome of a scan: `Found` (the C function's 0, with the bytes it
    copies out), `NotFound` (its 1), or `OverRead` (the C code reads beyond
    the sector buffer: the attribute of a `PastBuffer` slot, or the copy of
    a `Partial` slot it takes).
   */
  datatype Outcome = Found(entry: EntryBytes) | NotFound | OverRead

  /** The slot of a directory sector that starts at byte `32 * t`. */
  function SlotAt(sector: seq<byte>, t: nat): (s: Slot)
    ensures s.Entry? <==> 32 * t + 32 <= |sector|
    ensures s.PastBuffer? <==> |sector| <= 32 * t + 11
    ensures s.Entry? ==> s.bytes == sector[32 * t..32 * t + 32]
    ensures !s.PastBuffer? ==> Attribute(s) == sector[32 * t + 11]
  {
    if 32 * t + 32 <= |sector| then Entry(sector[32 * t..32 * t + 32])
    else if 32 * t + 11 < |sector| then Partial(sector[32 * t + 11])
    else PastBuffer
  }

  /** The attribute byte the scan tests, for a slot where it lies inside the buffer. */
  function Attribute(s: Slot): byte
    requires !s.PastBuffer?
  {
    if s.Entry? then s.bytes[11] else s.attribute
  }

  /** Slots `t`, `t + 1`, ..., `count - 1` of a sector. */
  function SlotsFrom(sector: seq<byte>, t: nat, count: nat): (r: seq<Slot>)
    ensures |r| == if t <= count then count - t else 0
    decreases count - t
  {
    if t >= count then [] else [SlotAt(sector, t)] + SlotsFrom(sector, t + 1, count)
  }

  /** Element `k` of `SlotsFrom(sector, t, count)` is slot `t + k` of the sector. */
  lemma {:induction false} SlotsFromIndex(sector: seq<byte>, t: nat, count: nat, k: nat)
    requires t + k < count
    ensures SlotsFrom(sector, t, count)[k] == SlotAt(sector, t + k)
    decreases count - t
  {
    var r := SlotsFrom(sector, t, count);
    assert r == [SlotAt(sector, t)] + SlotsFrom(sector, t + 1, count);
    if k > 0 {
      SlotsFromIndex(sector, t + 1, count, k - 1);
      assert r[k] == SlotsFrom(sector, t + 1, count)[k - 1];
    }
  }

  /** The slots of sectors `s`, `s + 1`, ... below `stop`, `count` of them per sector. */
  function DirSlots(v: Volume, s: nat, stop: nat, count: nat): seq<Slot>
    requires v.Valid()
    decreases stop - s
  {
    if s >= stop then [] else SlotsFrom(v.GetSector(s), 0, count) + DirSlots(v, s + 1, stop, count)
  }

  /** The slots the scan has still to visit when it is at slot `t` of sector `s`. */
  function Remaining(v: Volume, s: nat, t: nat, stop: nat, count: nat): seq<Slot>
    requires v.Valid()
  {
    if s >= stop then [] else SlotsFrom(v.GetSector(s), t, count) + DirSlots(v, s + 1, stop, count)
  }

  /**
    The rest of the scan from slot `t` of sector `s` with `counted` slots
    counted, one step per iteration of the loop: past the last slot of a
    sector, go on to the next sector.
   */
  function ScanFrom(v: Volume, s: nat, t: nat, stop: nat, count: nat, counted: nat, n: nat): (r: Outcome)
    requires v.Valid()
    ensures r == OverRead ==> 32 * count > v.Bps()
    decreases stop - s, count - t
  {
    if s >= stop then NotFound
    else if t >= count then ScanFrom(v, s + 1, 0, stop, count, counted, n)
    else
      var slot := SlotAt(v.GetSector(s), t);
      if slot.PastBuffer? then OverRead
      else
        var c := if Counts(slot) then counted + 1 else counted;
        if c < n then ScanFrom(v, s, t + 1, stop, count, c, n)
        else if slot.Entry? then Found(slot.bytes) else OverRead
  }

  /** The step-by-step scan is `Pick` over the slots that remain. */
  lemma {:induction false} ScanFromIsPick(v: Volume, s: nat, t: nat, stop: nat, count: nat, counted: nat, n: nat)
    requires v.Valid()
    ensures ScanFrom(v, s, t, stop, count, counted, n) == Pick(Remaining(v, s, t, stop, count), counted, n)
    decreases stop - s, count - t
  {
    if s < stop {
      var sector := v.GetSector(s);
      if t >= count {
        ScanFromIsPick(v, s + 1, 0, stop, count, counted, n);
        assert SlotsFrom(sector, t, count) == [];
        assert Remaining(v, s, t, stop, count) == DirSlots(v, s + 1, stop, count);
        assert Remaining(v, s + 1, 0, stop, count) == DirSlots(v, s + 1, stop, count);
      } else {
        var head, tail, more := SlotAt(sector, t), SlotsFrom(sector, t + 1, count), DirSlots(v, s + 1, stop, count);
        assert Remaining(v, s, t, stop, count) == [head] + tail + more;
        ConsTail(head, tail, more);
        assert Remaining(v, s, t + 1, stop, count) == tail + more;
        var c := if Counts(head) then counted + 1 else counted;
        ScanFromIsPick(v, s, t + 1, stop, count, c, n);
      }
    }
  }

  /**
    One slot of the scan: an attribute byte beyond the buffer ends it; the
    count rises unless the attribute is `ENTRY_NAME`; the slot is taken once
    the count reaches the index, and its copy runs past the buffer unless
    the whole slot lies inside.
   */
  lemma ScanSlot(v: Volume, s: nat, t: nat, stop: nat, count: nat, counted: nat, n: nat)
    requires v.Valid() && s < stop && t < count
    ensures var sector := v.GetSector(s);
      ScanFrom(v, s, t, stop, count, counted, n)
      == if 32 * t + 11 >= |sector| then OverRead
         else
           var c := if sector[32 * t + 11] != ENTRY_NAME then counted + 1 else counted;
           if c < n then ScanFrom(v, s, t + 1, stop, count, c, n)
           else if 32 * t + 32 > |sector| then OverRead
           else Found(sector[32 * t..32 * t + 32])
  {
  }

  /** Past the last slot of a sector the scan goes on at the first slot of the next one. */
  lemma ScanNextSector(v: Volume, s: nat, t: nat, stop: nat, count: nat, counted: nat, n: nat)
    requires v.Valid() && s < stop && t >= count
    ensures ScanFrom(v, s, t, stop, count, counted, n) == ScanFrom(v, s + 1, 0, stop, count, counted, n)
  {
  }

  lemma ConsTail(x: Slot, a: seq<Slot>, b: seq<Slot>)
    ensures |[x] + a + b| > 0 && ([x] + a + b)[0] == x && ([x] + a + b)[1..] == a + b
  {
    assert ([x] + a + b)[1..] == a + b;
  }

  /** Whether a slot is counted: its attribute byte lies inside the buffer and is not `ENTRY_NAME`. */
  predicate Counts(s: Slot)
  {
    !s.PastBuffer? && Attribute(s) != ENTRY_NAME
  }

  /** How many slots of `slots` are counted. */
  function Counted(slots: seq<Slot>): (r: nat)
    ensures r <= |slots|
  {
    if slots == [] then 0 else (if Counts(slots[0]) then 1 else 0) + Counted(slots[1..])
  }

  /** Every slot is a whole entry. */
  predicate AllWhole(slots: seq<Slot>)
  {
    forall k :: 0 <= k < |slots| ==> slots[k].Entry?
  }

  /** Every slot has its attribute byte inside the buffer. */
  predicate AttributesInBuffer(slots: seq<Slot>)
  {
    forall k :: 0 <= k < |slots| ==> !slots[k].PastBuffer?
  }

  /**
    The scan over `slots` with `counted` slots counted so far, looking for
    index `n`: each counted slot raises the count, and the first slot at which
    the count is no longer below `n` is the one taken.
   */
  function Pick(slots: seq<Slot>, counted: nat, n: nat): Outcome
  {
    if slots == [] then NotFound
    else if slots[0].PastBuffer? then OverRead
    else
      var c := if Counts(slots[0]) then counted + 1 else counted;
      if c < n then Pick(slots[1..], c, n)
      else if slots[0].Entry? then Found(slots[0].bytes) else OverRead
  }

  /**
    What `Pick` reports comes from the slots: a found entry is one of them,
    and "not found" means every slot's attribute byte was inside the buffer.
   */
  lemma {:induction false} PickOutcomeFromSlots(slots: seq<Slot>, counted: nat, n: nat)
    ensures Pick(slots, counted, n).Found? ==> Entry(Pick(slots, counted, n).entry) in slots
    ensures Pick(slots, counted, n) == NotFound ==> AttributesInBuffer(slots)
  {
    if slots != [] && !slots[0].PastBuffer? {
      var c := if Counts(slots[0]) then counted + 1 else counted;
      if c < n {
        PickOutcomeFromSlots(slots[1..], c, n);
        assert forall x :: x in slots[1..] ==> x in slots;
        assert forall k :: 1 <= k < |slots| ==> slots[k] == slots[1..][k - 1];
      }
    }
  }

  /** Once a prefix decides the scan, what follows it does not matter. */
  lemma {:induction false} PickPrefixDecides(head: seq<Slot>, rest: seq<Slot>, counted: nat, n: nat)
    requires Pick(head, counted, n) != NotFound
    ensures Pick(head + rest, counted, n) == Pick(head, counted, n)
  {
    assert (head + rest)[0] == head[0];
    if !head[0].PastBuffer? {
      var c := if Counts(head[0]) then counted + 1 else counted;
      if c < n {
        assert (head + rest)[1..] == head[1..] + rest;
        PickPrefixDecides(head[1..], rest, c, n);
      }
    }
  }

  /** `Pick` finds the slot at which the count reaches `n`: it is counted, and exactly `n - 1` counted slots precede it. */
  lemma {:induction false} PickFoundIsNth(slots: seq<Slot>, counted: nat, n: nat)
    requires counted < n && Pick(slots, counted, n).Found?
    ensures exists k :: 0 <= k < |slots| && slots[k] == Entry(Pick(slots, counted, n).entry)
              && Counts(slots[k]) && AttributesInBuffer(slots[..k]) && counted + Counted(slots[..k]) == n - 1
  {
    var b := Pick(slots, counted, n).entry;
    var c := if Counts(slots[0]) then counted + 1 else counted;
    if c < n {
      PickFoundIsNth(slots[1..], c, n);
      var k :| 0 <= k < |slots[1..]| && slots[1..][k] == Entry(b) && Counts(slots[1..][k])
               && AttributesInBuffer(slots[1..][..k]) && c + Counted(slots[1..][..k]) == n - 1;
      assert slots[..k + 1][1..] == slots[1..][..k];
      assert slots[k + 1] == Entry(b) && Counts(slots[k + 1]);
    } else {
      assert slots[..0] == [];
    }
  }

  /**
    Conversely, the whole counted slot with `n - 1` counted slots before it,
    all with their attribute bytes inside the buffer, is the one `Pick` finds.
   */
  lemma {:induction false} NthIsPicked(slots: seq<Slot>, counted: nat, n: nat, k: nat)
    requires counted < n && k < |slots| && slots[k].Entry? && Counts(slots[k])
    requires AttributesInBuffer(slots[..k]) && counted + Counted(slots[..k]) == n - 1
    ensures Pick(slots, counted, n) == Found(slots[k].bytes)
  {
    if k > 0 {
      assert slots[..k][1..] == slots[1..][..k - 1];
      assert slots[..k][0] == slots[0];
      var c := if Counts(slots[0]) then counted + 1 else counted;
      NthIsPicked(slots[1..], c, n, k - 1);
    }
  }

  /** A slot whose name byte marks the end of the directory, or a deleted entry, does not stop the scan: it is counted like any other. */
  lemma EndAndDeletedCounted(b: EntryBytes, rest: seq<Slot>, counted: nat, n: nat)
    requires b[0] == ENTRY_EMPTY || b[0] == ENTRY_DELETED
    requires b[11] != ENTRY_NAME && counted + 1 < n
    ensures Pick([Entry(b)] + rest, counted, n) == Pick(rest, counted + 1, n)
  {
    assert ([Entry(b)] + rest)[1..] == rest;
  }

  /** A long-name slot is skipped without being counted. */
  lemma LongNameSkipped(b: EntryBytes, rest: seq<Slot>, counted: nat, n: nat)
    requires b[11] == ENTRY_NAME && counted < n
    ensures Pick([Entry(b)] + rest, counted, n) == Pick(rest, counted, n)
  {
    assert ([Entry(b)] + rest)[1..] == rest;
  }

  /** Index 0 takes the first slot, counted or not. */
  lemma IndexZeroTakesFirst(slots: seq<Slot>)
    requires |slots| > 0 && slots[0].Entry?
    ensures Pick(slots, 0, 0) == Found(slots[0].bytes)
  {
  }

  /** The sector at which `GetEntry` starts: the root directory for cluster 0, otherwise the first sector of the cluster. */
  function DirFirstSector(p: BIOSParam, startCluster: nat): (r: nat)
    requires p.WellFormed() && BytesPerSector(p) >= 1 && MaxRootEntries(p) >= 1
    ensures r < TwoTo32
  {
    if startCluster == 0 then GetStartSectorRoot(p) else ClusterFirstSector(p, startCluster)
  }

  /** `endSector`: the root's first sector plus `SectorPerRoot`, or the cluster's first sector plus `secPerCluster` (in `unsigned int`). */
  function DirEndSector(p: BIOSParam, startCluster: nat): (r: nat)
    requires p.WellFormed() && BytesPerSector(p) >= 1 && MaxRootEntries(p) >= 1
    ensures r < TwoTo32
    ensures startCluster == 0 ==> r == ClusterFirstSector(p, 2)
  {
    assert ClusterFirstSector(p, 2) == DataStart(p) by {
      ClusterFirstSectorExact(p, 0);
    }
    if startCluster == 0 then GetStartSectorRoot(p) + SectorPerRoot(p)
    else Wrap32(ClusterFirstSector(p, startCluster) + SectorsPerCluster(p))
  }

  /**
    The slots `GetEntry` visits as written: `byteOffset > bytePerSec` lets
    `bytePerSec / 32 + 1` slots of each sector through, and `SecOffset <=
    endSector` includes sector `endSector`.
   */
  function AsWrittenSlots(v: Volume, startCluster: nat): seq<Slot>
    requires v.Valid()
  {
    DirSlots(v, DirFirstSector(v.bpb, startCluster), DirEndSector(v.bpb, startCluster) + 1, v.Bps() / 32 + 1)
  }

  /**
    The slots the scan evidently means to visit: the `bytePerSec / 32` whole
    entries of each sector, in the sectors from the first up to but not
    including `endSector`.
   */
  function IntendedSlots(v: Volume, startCluster: nat): seq<Slot>
    requires v.Valid()
  {
    DirSlots(v, DirFirstSector(v.bpb, startCluster), DirEndSector(v.bpb, startCluster), v.Bps() / 32)
  }

  /**
    `GetEntry(entry, entryIndex, startCluster)`: scan the root directory
    (`startCluster == 0`) or the first cluster of a subdirectory, as written.
    On `Found` the 32 bytes are copied into `entry`; otherwise `entry` is
    left as it was.
   */
  method GetEntry(v: Volume, entry: array<byte>, entryIndex: nat, startCluster: nat) returns (r: Outcome)
    requires v.Valid() && entry.Length == DIRECTORY_ENTRY_SIZE
    modifies entry
    ensures r == Pick(AsWrittenSlots(v, startCluster), 0, entryIndex)
    ensures r.Found? ==> entry[..] == r.entry
    ensures !r.Found? ==> entry[..] == old(entry[..])
  {
    var secOffset, endSector := DirRegion(v, startCluster);
    r := ScanDirectory(v, entry, entryIndex, secOffset, endSector, false);
  }

  /** `GetEntry` with the two bounds corrected: whole entries only, and `endSector` excluded. */
  method GetEntryIntended(v: Volume, entry: array<byte>, entryIndex: nat, startCluster: nat) returns (r: Outcome)
    requires v.Valid() && entry.Length == DIRECTORY_ENTRY_SIZE
    modifies entry
    ensures r == Pick(IntendedSlots(v, startCluster), 0, entryIndex)
    ensures r != OverRead
    ensures r.Found? ==> entry[..] == r.entry
    ensures !r.Found? ==> entry[..] == old(entry[..])
  {
    var secOffset, endSector := DirRegion(v, startCluster);
    r := ScanDirectory(v, entry, entryIndex, secOffset, endSector, true);
    IntendedNeverOverReads(v, secOffset, endSector, 0, entryIndex);
  }

  /** The first sector and `endSector` of the scan, as `GetEntry` computes them in `unsigned int`. */
  method DirRegion(v: Volume, startCluster: nat) returns (secOffset: nat, endSector: nat)
    requires v.Valid()
    ensures secOffset == DirFirstSector(v.bpb, startCluster)
    ensures endSector == DirEndSector(v.bpb, startCluster)
  {
    var p := v.bpb;
    if startCluster == 0 {
      secOffset := GetStartSectorRoot(p);
      endSector := secOffset + SectorPerRoot(p);
    } else {
      var numReservedSector, sectorPerFAT, numFAT := ReservedSectors(p), SectorsPerFAT(p), NumFATs(p);
      var sectorPerCluster := SectorsPerCluster(p);
      secOffset := Wrap32(numReservedSector + numFAT * sectorPerFAT + SectorPerRoot(p)
                          + (startCluster - 2) * sectorPerCluster);
      endSector := Wrap32(secOffset + sectorPerCluster);
    }
  }

  /**
    The loop of `GetEntry` over the sectors from `secOffset` on.  With
    `intended` false it is the code as written: a new sector is fetched once
    `byteOffset > bytePerSec`, and the loop runs while `SecOffset <=
    endSector`.  With `intended` true a new sector is fetched once the next
    slot would not fit, and the loop runs while `SecOffset < endSector`.
   */
  method ScanDirectory(v: Volume, entry: array<byte>, entryIndex: nat, secOffset: nat, endSector: nat,
                       intended: bool) returns (r: Outcome)
    requires v.Valid() && entry.Length == DIRECTORY_ENTRY_SIZE
    modifies entry
    ensures r == Pick(DirSlots(v, secOffset, Stop(endSector, intended), SlotCount(v, intended)), 0, entryIndex)
    ensures r.Found? ==> entry[..] == r.entry
    ensures !r.Found? ==> entry[..] == old(entry[..])
  {
    var bytePerSec := v.Bps();
    var stop, count := Stop(endSector, intended), SlotCount(v, intended);
    ghost var slots := DirSlots(v, secOffset, stop, count);
    var sec := secOffset;
    var sector := v.GetSector(sec);
    var tempEntry, byteOffset, i := 0, 0, 0;
    var isEntryNotFound := true;
    r := NotFound;
    ghost var target := ScanFrom(v, sec, 0, stop, count, 0, entryIndex);
    while isEntryNotFound && (if intended then sec < endSector else sec <= endSector)
      invariant sector == v.GetSector(sec) && tempEntry <= count
      invariant isEntryNotFound ==> byteOffset == 32 * tempEntry
      invariant entry[..] == if r.Found? then r.entry else old(entry[..])
      invariant isEntryNotFound ==> r == NotFound
      invariant isEntryNotFound ==> ScanFrom(v, sec, tempEntry, stop, count, i, entryIndex) == target
      invariant !isEntryNotFound ==> r == target
      decreases stop - sec, count - tempEntry, if isEntryNotFound then 1 else 0
    {
      if if intended then byteOffset + DIRECTORY_ENTRY_SIZE > bytePerSec else byteOffset > bytePerSec {
        SlotCountBounds(bytePerSec, tempEntry, count, intended);
        ScanNextSector(v, sec, tempEntry, stop, count, i, entryIndex);
        sec := sec + 1;
        byteOffset := 0;
        sector := v.GetSector(sec);
        tempEntry := 0;
      } else {
        byteOffset := byteOffset + DIRECTORY_ENTRY_SIZE;
        SlotCountBounds(bytePerSec, tempEntry, count, intended);
        ScanSlot(v, sec, tempEntry, stop, count, i, entryIndex);
        if 32 * tempEntry + 11 >= |sector| {
          r := OverRead;
          isEntryNotFound := false;
        } else {
          if sector[32 * tempEntry + 11] != ENTRY_NAME {
            i := i + 1;
          }
          if i < entryIndex {
            tempEntry := tempEntry + 1;
          } else if 32 * tempEntry + 32 > |sector| {
            r := OverRead;
            isEntryNotFound := false;
          } else {
            CopyEntry(entry, sector, 32 * tempEntry);
            r := Found(sector[32 * tempEntry..32 * tempEntry + 32]);
            isEntryNotFound := false;
          }
        }
      }
    }
    ScanFromIsPick(v, secOffset, 0, stop, count, 0, entryIndex);
    assert Remaining(v, secOffset, 0, stop, count) == slots;
  }

  /** The loop bound: `SecOffset <= endSector` as written, `SecOffset < endSector` as intended. */
  function Stop(endSector: nat, intended: bool): nat
  {
    if intended then endSector else endSector + 1
  }

  /** Slots per sector the loop reaches: `bytePerSec / 32 + 1` as written, `bytePerSec / 32` as intended. */
  function SlotCount(v: Volume, intended: bool): nat
    requires v.Valid()
  {
    if intended then v.Bps() / 32 else v.Bps() / 32 + 1
  }

  /** Which side of the slot count the loop's sector test puts slot `t` on. */
  lemma SlotCountBounds(bps: nat, t: nat, count: nat, intended: bool)
    requires count == if intended then bps / 32 else bps / 32 + 1
    ensures (if intended then 32 * t + 32 > bps else 32 * t > bps) <==> t >= count
  {
    var q := bps / 32;
    assert 32 * q <= bps < 32 * q + 32;
  }

  /** The copy loop of `GetEntry`: the 32 bytes at `offset` of the sector go to `entry`. */
  method CopyEntry(entry: array<byte>, sector: seq<byte>, offset: nat)
    requires entry.Length == DIRECTORY_ENTRY_SIZE && offset + 32 <= |sector|
    modifies entry
    ensures entry[..] == sector[offset..offset + 32]
  {
    var j := 0;
    while j < DIRECTORY_ENTRY_SIZE
      invariant 0 <= j <= DIRECTORY_ENTRY_SIZE
      invariant entry[..j] == sector[offset..offset + j]
    {
      entry[j] := sector[offset + j];
      j := j + 1;
    }
  }

  /** Scanning whole entries only never over-reads. */
  lemma {:induction false} NoOverRead(slots: seq<Slot>, counted: nat, n: nat)
    requires AllWhole(slots)
    ensures Pick(slots, counted, n) != OverRead
  {
    if slots != [] {
      var c := if Counts(slots[0]) then counted + 1 else counted;
      NoOverRead(slots[1..], c, n);
    }
  }

  /** With `bytePerSec / 32` slots per sector, every slot is a whole entry. */
  lemma {:induction false} IntendedSlotsWhole(v: Volume, s: nat, stop: nat)
    requires v.Valid()
    ensures AllWhole(DirSlots(v, s, stop, v.Bps() / 32))
    decreases stop - s
  {
    var count := v.Bps() / 32;
    if s < stop {
      IntendedSlotsWhole(v, s + 1, stop);
      var head := SlotsFrom(v.GetSector(s), 0, count);
      forall k | 0 <= k < |head|
        ensures head[k].Entry?
      {
        SlotsFromIndex(v.GetSector(s), 0, count, k);
        assert 32 * k + 32 <= 32 * count <= v.Bps();
      }
    }
  }

  /** The corrected scan never reads past the sector buffer. */
  lemma IntendedNeverOverReads(v: Volume, s: nat, endSector: nat, counted: nat, n: nat)
    requires v.Valid()
    ensures Pick(DirSlots(v, s, endSector, v.Bps() / 32), counted, n) != OverRead
  {
    IntendedSlotsWhole(v, s, endSector);
    NoOverRead(DirSlots(v, s, endSector, v.Bps() / 32), counted, n);
  }

  /** A scan whose slots end in one with its attribute byte past the buffer never goes on beyond it. */
  lemma {:induction false} PickStopsAtPastBuffer(head: seq<Slot>, rest: seq<Slot>, counted: nat, n: nat)
    requires |head| > 0 && head[|head| - 1] == PastBuffer
    ensures Pick(head + rest, counted, n) == Pick(head, counted, n)
    ensures Pick(head, counted, n) != NotFound
  {
    assert (head + rest)[0] == head[0];
    if |head| > 1 {
      assert (head + rest)[1..] == head[1..] + rest;
      var c := if Counts(head[0]) then counted + 1 else counted;
      PickStopsAtPastBuffer(head[1..], rest, c, n);
    }
  }

  /**
    As written, the last slot `GetEntry` reaches in a sector is not a whole
    entry.  When the sector size leaves fewer than 12 bytes after the last
    whole entry (so for every sector size a FAT volume uses, all multiples
    of 32), its attribute byte lies past the buffer: the scan reaches that
    slot before it could leave the first sector, and either finds the entry
    within the first sector or reads the slot's attribute byte beyond the
    buffer, where the model stops with `OverRead`.  For such sizes the model
    of the scan never reports "not found".
   */
  lemma AsWrittenStaysInFirstSector(v: Volume, startCluster: nat, n: nat)
    requires v.Valid() && (startCluster == 0 || 2 <= startCluster <= 0xFFFF)
    ensures v.Bps() % 32 < 12 ==>
      var first := DirFirstSector(v.bpb, startCluster);
      Pick(AsWrittenSlots(v, startCluster), 0, n) == Pick(SlotsFrom(v.GetSector(first), 0, v.Bps() / 32 + 1), 0, n)
    ensures v.Bps() % 32 < 12 ==> Pick(AsWrittenSlots(v, startCluster), 0, n) != NotFound
  {
    if v.Bps() % 32 < 12 {
      var first, stop := DirFirstSector(v.bpb, startCluster), DirEndSector(v.bpb, startCluster) + 1;
      var count := v.Bps() / 32 + 1;
      AsWrittenFromFirstSector(v, startCluster);
      SectorSlotsAsWritten(v.GetSector(first), count - 1);
      PickStopsAtPastBuffer(SlotsFrom(v.GetSector(first), 0, count), DirSlots(v, first + 1, stop, count), 0, n);
    }
  }

  /** As written, the scan lists the first sector's slots, then those of the sectors after it. */
  lemma AsWrittenFromFirstSector(v: Volume, startCluster: nat)
    requires v.Valid() && (startCluster == 0 || 2 <= startCluster <= 0xFFFF)
    ensures var first, stop, count := DirFirstSector(v.bpb, startCluster), DirEndSector(v.bpb, startCluster) + 1, v.Bps() / 32 + 1;
      && first + 1 < stop
      && AsWrittenSlots(v, startCluster) == SlotsFrom(v.GetSector(first), 0, count) + DirSlots(v, first + 1, stop, count)
  {
    DirRegionBounds(v.bpb, startCluster);
  }

  /**
    The slots the as-written scan reaches in a sector holding `q` whole
    entries: those entries, then one slot that is not whole, whose attribute
    byte lies past the buffer exactly when fewer than 12 bytes follow the
    last whole entry.
   */
  lemma {:induction false} SectorSlotsAsWritten(sector: seq<byte>, q: nat)
    requires 32 * q <= |sector| < 32 * q + 32
    ensures forall k :: 0 <= k < q ==> SlotsFrom(sector, 0, q + 1)[k] == Entry(sector[32 * k..32 * k + 32])
    ensures !SlotsFrom(sector, 0, q + 1)[q].Entry?
    ensures SlotsFrom(sector, 0, q + 1)[q].PastBuffer? <==> |sector| < 32 * q + 12
    ensures SlotsFrom(sector, 0, q + 1)[q] == SlotAt(sector, q)
  {
    forall k | 0 <= k < q
      ensures SlotsFrom(sector, 0, q + 1)[k] == Entry(sector[32 * k..32 * k + 32])
    {
      SlotsFromIndex(sector, 0, q + 1, k);
    }
    SlotsFromIndex(sector, 0, q + 1, q);
  }

  /**
    The region `GetEntry` scans: the root directory starts at
    `GetStartSectorRoot` and `endSector` lies `SectorPerRoot` sectors on; a
    subdirectory whose cluster number fits in 16 bits starts at its
    cluster's first sector after the root directory, and `endSector` lies
    `secPerCluster` sectors on.
   */
  lemma DirRegionBounds(p: BIOSParam, startCluster: nat)
    requires p.WellFormed() && BytesPerSector(p) >= 1 && MaxRootEntries(p) >= 1
    requires startCluster == 0 || 2 <= startCluster <= 0xFFFF
    ensures startCluster == 0 ==>
              && DirFirstSector(p, startCluster) == GetStartSectorRoot(p)
              && DirEndSector(p, startCluster) == GetStartSectorRoot(p) + SectorPerRoot(p)
    ensures startCluster != 0 ==>
              && DirFirstSector(p, startCluster)
                 == GetStartSectorRoot(p) + SectorPerRoot(p) + (startCluster - 2) * SectorsPerCluster(p)
              && DirEndSector(p, startCluster) == DirFirstSector(p, startCluster) + SectorsPerCluster(p)
    ensures DirFirstSector(p, startCluster) <= DirEndSector(p, startCluster)
  {
    if startCluster != 0 {
      var k, spc := startCluster - 2, SectorsPerCluster(p);
      ClusterFirstSectorExact(p, k);
      assert k * spc <= 0xFFFF * 255 by {
        MulMonotonic(k, 0xFFFF, spc);
        MulMonotonic(spc, 255, 0xFFFF);
      }
    }
  }

  /**
    A witness of the over-read: in a first sector whose every whole slot is
    counted, asking for one more entry than the sector holds reaches the
    slot after them and reads beyond the buffer (with 512-byte sectors:
    index 17 reads bytes 512 to 543 of a 512-byte buffer).  When that slot's
    attribute byte still lies inside the buffer, it must be counted too for
    the scan to take the slot and copy it out.
   */
  lemma AsWrittenOverReads(v: Volume, startCluster: nat)
    requires v.Valid() && (startCluster == 0 || 2 <= startCluster <= 0xFFFF)
    requires var sector := v.GetSector(DirFirstSector(v.bpb, startCluster));
      forall t :: 0 <= t && 32 * t + 32 <= v.Bps() ==> sector[32 * t + 11] != ENTRY_NAME
    requires var sector := v.GetSector(DirFirstSector(v.bpb, startCluster));
      v.Bps() % 32 >= 12 ==> sector[v.Bps() - v.Bps() % 32 + 11] != ENTRY_NAME
    ensures Pick(AsWrittenSlots(v, startCluster), 0, v.Bps() / 32 + 1) == OverRead
  {
    var first, stop := DirFirstSector(v.bpb, startCluster), DirEndSector(v.bpb, startCluster) + 1;
    var q := v.Bps() / 32;
    AsWrittenFromFirstSector(v, startCluster);
    assert 32 * q + v.Bps() % 32 == v.Bps();
    SectorOverReads(v.GetSector(first), q, DirSlots(v, first + 1, stop, q + 1));
  }

  /** `AsWrittenOverReads` for one sector holding `q` whole entries, whatever slots follow it. */
  lemma SectorOverReads(sector: seq<byte>, q: nat, tail: seq<Slot>)
    requires 32 * q <= |sector| < 32 * q + 32
    requires forall t :: 0 <= t < q ==> sector[32 * t + 11] != ENTRY_NAME
    requires 32 * q + 12 <= |sector| ==> sector[32 * q + 11] != ENTRY_NAME
    ensures Pick(SlotsFrom(sector, 0, q + 1) + tail, 0, q + 1) == OverRead
  {
    var head := SlotsFrom(sector, 0, q + 1);
    SectorSlotsAsWritten(sector, q);
    forall k | 0 <= k < q
      ensures Counts(head[k])
    {
      assert sector[32 * k..32 * k + 32][11] == sector[32 * k + 11];
    }
    AllCountedUntilLast(head, 0, q + 1);
    PickPrefixDecides(head, tail, 0, q + 1);
  }

  /**
    Slots all counted up to a final one that is not a whole entry and either
    has its attribute byte past the buffer or is counted: asking for one more
    than the count reads beyond the buffer.
   */
  lemma {:induction false} AllCountedUntilLast(slots: seq<Slot>, counted: nat, n: nat)
    requires |slots| > 0 && !slots[|slots| - 1].Entry?
    requires slots[|slots| - 1].PastBuffer? || Counts(slots[|slots| - 1])
    requires forall k :: 0 <= k < |slots| - 1 ==> Counts(slots[k])
    requires counted + |slots| == n
    ensures Pick(slots, counted, n) == OverRead
  {
    if |slots| > 1 {
      AllCountedUntilLast(slots[1..], counted + 1, n);
    }
  }

  /**
    When the sector size leaves 12 or more bytes after the last whole entry,
    the slot they start has its attribute byte inside the buffer; a
    long-name attribute there is passed over, and the as-written scan goes
    on into the next sector.  Here the first sector's whole slots are all
    counted and the next sector's first slot is too, so asking for one more
    entry than the first sector holds finds the next sector's first entry.
   */
  lemma AsWrittenLeavesFirstSector(v: Volume, startCluster: nat)
    requires v.Valid() && (startCluster == 0 || 2 <= startCluster <= 0xFFFF)
    requires v.Bps() % 32 >= 12
    requires var sector := v.GetSector(DirFirstSector(v.bpb, startCluster));
      && (forall t :: 0 <= t && 32 * t + 32 <= v.Bps() ==> sector[32 * t + 11] != ENTRY_NAME)
      && sector[v.Bps() - v.Bps() % 32 + 11] == ENTRY_NAME
    requires v.Bps() >= 32 && v.GetSector(DirFirstSector(v.bpb, startCluster) + 1)[11] != ENTRY_NAME
    ensures Pick(AsWrittenSlots(v, startCluster), 0, v.Bps() / 32 + 1)
            == Found(v.GetSector(DirFirstSector(v.bpb, startCluster) + 1)[0..32])
  {
    var first, stop := DirFirstSector(v.bpb, startCluster), DirEndSector(v.bpb, startCluster) + 1;
    var q := v.Bps() / 32;
    AsWrittenFromFirstSector(v, startCluster);
    assert DirSlots(v, first + 1, stop, q + 1)
        == SlotsFrom(v.GetSector(first + 1), 0, q + 1) + DirSlots(v, first + 2, stop, q + 1);
    assert 32 * q + v.Bps() % 32 == v.Bps();
    SectorPassesOver(v.GetSector(first), v.GetSector(first + 1), q, DirSlots(v, first + 2, stop, q + 1));
  }

  /**
    `AsWrittenLeavesFirstSector` for two sectors of the same size holding
    `q` whole entries each, whatever slots follow them.
   */
  lemma SectorPassesOver(sector: seq<byte>, next: seq<byte>, q: nat, tail: seq<Slot>)
    requires 32 * q + 12 <= |sector| < 32 * q + 32 && |next| == |sector| && q >= 1
    requires forall t :: 0 <= t < q ==> sector[32 * t + 11] != ENTRY_NAME
    requires sector[32 * q + 11] == ENTRY_NAME && next[11] != ENTRY_NAME
    ensures Pick(SlotsFrom(sector, 0, q + 1) + (SlotsFrom(next, 0, q + 1) + tail), 0, q + 1) == Found(next[0..32])
  {
    var head, rest := SlotsFrom(sector, 0, q + 1), SlotsFrom(next, 0, q + 1) + tail;
    SectorSlotsAsWritten(sector, q);
    forall k | 0 <= k < q
      ensures Counts(head[k])
    {
      assert sector[32 * k..32 * k + 32][11] == sector[32 * k + 11];
    }
    assert rest[0] == Entry(next[0..32]) && Counts(rest[0]) by {
      SlotsFromIndex(next, 0, q + 1, 0);
    }
    assert head + rest == head[..q] + ([head[q]] + rest);
    PickSkipsCounted(head[..q], [head[q]] + rest, 0, q + 1);
    assert ([head[q]] + rest)[1..] == rest;
  }

  /** Slots that are all counted, fewer than the index still wants, only raise the count. */
  lemma {:induction false} PickSkipsCounted(slots: seq<Slot>, tail: seq<Slot>, counted: nat, n: nat)
    requires forall k :: 0 <= k < |slots| ==> Counts(slots[k])
    requires counted + |slots| < n
    ensures Pick(slots + tail, counted, n) == Pick(tail, counted + |slots|, n)
  {
    if slots != [] {
      assert (slots + tail)[0] == slots[0];
      assert (slots + tail)[1..] == slots[1..] + tail;
      PickSkipsCounted(slots[1..], tail, counted + 1, n);
    } else {
      assert slots + tail == tail;
    }
  }

  /** The slots of sectors `s` to `stop` are those of `s` to `stop - 1` followed by those of sector `stop`. */
  lemma {:induction false} DirSlotsSnoc(v: Volume, s: nat, stop: nat, count: nat)
    requires v.Valid() && s <= stop
    ensures DirSlots(v, s, stop + 1, count) == DirSlots(v, s, stop, count) + SlotsFrom(v.GetSector(stop), 0, count)
    decreases stop - s
  {
    if s < stop {
      DirSlotsSnoc(v, s + 1, stop, count);
      var head := SlotsFrom(v.GetSector(s), 0, count);
      assert head + (DirSlots(v, s + 1, stop, count) + SlotsFrom(v.GetSector(stop), 0, count))
          == (head + DirSlots(v, s + 1, stop, count)) + SlotsFrom(v.GetSector(stop), 0, count);
    } else {
      assert DirSlots(v, s, stop + 1, count) == SlotsFrom(v.GetSector(s), 0, count) + [];
    }
  }

  /** The scan over sectors `s` to `stop - 1` lists `count` slots per sector. */
  lemma {:induction false} DirSlotsLength(v: Volume, s: nat, stop: nat, count: nat)
    requires v.Valid() && s <= stop
    ensures |DirSlots(v, s, stop, count)| == (stop - s) * count
    decreases stop - s
  {
    if s < stop {
      DirSlotsLength(v, s + 1, stop, count);
      MulSucc(stop - s - 1, count);
    }
  }

  /**
    As written, `SecOffset <= endSector` lets the loop go on into sector
    `endSector` itself, the first sector past the region: for the root
    directory the first sector of cluster 2, for a subdirectory the first
    sector of the cluster after its first cluster on the disk.  When the
    sector size leaves fewer than 12 bytes after the last whole entry, the
    loop can get there only past an over-read in each earlier sector; with
    12 or more, it gets there when each earlier sector's partial slot
    carries the long-name attribute.
   */
  lemma AsWrittenScansEndSector(v: Volume, startCluster: nat)
    requires v.Valid() && (startCluster == 0 || 2 <= startCluster <= 0xFFFF)
    ensures var first, end, count := DirFirstSector(v.bpb, startCluster), DirEndSector(v.bpb, startCluster), v.Bps() / 32 + 1;
      AsWrittenSlots(v, startCluster) == DirSlots(v, first, end, count) + SlotsFrom(v.GetSector(end), 0, count)
    ensures startCluster == 0 ==> DirEndSector(v.bpb, startCluster) == ClusterFirstSector(v.bpb, 2)
    ensures startCluster != 0 ==> DirEndSector(v.bpb, startCluster) == ClusterFirstSector(v.bpb, startCluster + 1)
  {
    var p := v.bpb;
    var first, end := DirFirstSector(p, startCluster), DirEndSector(p, startCluster);
    DirRegionBounds(p, startCluster);
    DirSlotsSnoc(v, first, end, v.Bps() / 32 + 1);
    if startCluster != 0 {
      ClusterSectorsAfterRoot(p, startCluster);
    }
  }

  /**
    Corrected, the scan lists exactly the whole entries of the region's
    sectors: `bytePerSec / 32` per sector, over the `SectorPerRoot` sectors of
    the root directory or the `secPerCluster` sectors of a subdirectory's
    first cluster, and nothing of the sector after them.
   */
  lemma IntendedScansRegionOnly(v: Volume, startCluster: nat)
    requires v.Valid() && (startCluster == 0 || 2 <= startCluster <= 0xFFFF)
    ensures startCluster == 0 ==> |IntendedSlots(v, startCluster)| == SectorPerRoot(v.bpb) * (v.Bps() / 32)
    ensures startCluster != 0 ==> |IntendedSlots(v, startCluster)| == SectorsPerCluster(v.bpb) * (v.Bps() / 32)
    ensures AllWhole(IntendedSlots(v, startCluster))
  {
    var p := v.bpb;
    DirRegionBounds(p, startCluster);
    DirSlotsLength(v, DirFirstSector(p, startCluster), DirEndSector(p, startCluster), v.Bps() / 32);
    IntendedSlotsWhole(v, DirFirstSector(p, startCluster), DirEndSector(p, startCluster));
  }
}
