/**
  The file cursor: `OpenFile`, `Fseek`, `Fread` and `CloseFile` over the
  `File` record (start cluster, current cluster, sector within the cluster,
  byte within the sector).  The cursor moves one byte at a time by the rule
  of `Step`; `Advance` is that rule applied repeatedly and serves as the
  specification of both `Fseek` and `Fread`.
 */
module Cursor {
  import opened Bytes
  import opened Layout
  import opened Geometry
  import opened Chain

  /** The three moving fields of a `File`. */
  datatype Position = Position(cluster: nat, sector: nat, byte: nat)

  /** The byte lies inside its sector and the sector inside its cluster. */
  predicate InRange(v: Volume, p: Position)
    requires v.Valid()
  {
    p.byte < v.Bps() && p.sector < v.Spc()
  }

  /**
    One iteration of the loop of `Fseek`: next byte of the sector, else first
    byte of the next sector of the cluster, else first byte of the next
    cluster of the chain — except that a cursor at `EOC` stays at `EOC`.
   */
  function Step(v: Volume, p: Position): (q: Position)
    requires v.Valid()
    ensures InRange(v, p) ==> InRange(v, q)
    ensures p.cluster == EOC ==> q.cluster == EOC
    ensures v.Spc() >= 2 && q.sector == p.sector ==> q.cluster == p.cluster && q.byte == p.byte + 1
  {
    if p.byte < v.Bps() - 1 then p.(byte := p.byte + 1)
    else if p.sector < v.Spc() - 1 then Position(p.cluster, p.sector + 1, 0)
    else if p.cluster != EOC then Position(GetNextCluster(v, p.cluster), 0, 0)
    else Position(p.cluster, 0, 0)
  }

  /** The cursor after `n` one-byte steps from `p`. */
  function Advance(v: Volume, p: Position, n: nat): (q: Position)
    requires v.Valid()
    ensures InRange(v, p) ==> InRange(v, q)
    ensures p.cluster == EOC ==> q.cluster == EOC
  {
    if n == 0 then p else Step(v, Advance(v, p, n - 1))
  }

  lemma AdvanceSucc(v: Volume, p: Position, n: nat)
    requires v.Valid()
    ensures Advance(v, p, n + 1) == Step(v, Advance(v, p, n))
    ensures Advance(v, p, 1) == Step(v, p)
  {
  }

  /** What one more step after `n` steps from `start` does, as the loop of `Fread` uses it. */
  lemma StepFacts(v: Volume, start: Position, n: nat, q: Position, r: Position)
    requires v.Valid() && InRange(v, start) && q == Advance(v, start, n) && r == Advance(v, q, 1)
    ensures r == Advance(v, start, n + 1) && InRange(v, r)
    ensures v.Spc() >= 2 && r.sector == q.sector ==> r.cluster == q.cluster && r.byte == q.byte + 1
    ensures v.Spc() == 1 ==> r.sector == q.sector
  {
    AdvanceSucc(v, q, 0);
  }

  /** Seeking `a` bytes and then `b` bytes is seeking `a + b` bytes. */
  lemma {:induction false} AdvanceAdditive(v: Volume, p: Position, a: nat, b: nat)
    requires v.Valid()
    ensures Advance(v, Advance(v, p, a), b) == Advance(v, p, a + b)
  {
    if b > 0 {
      AdvanceAdditive(v, p, a, b - 1);
    }
  }

  /** Within one sector, `n` steps move the byte index by `n` and touch nothing else. */
  lemma {:induction false} AdvanceWithinSector(v: Volume, p: Position, n: nat)
    requires v.Valid() && p.byte + n < v.Bps()
    ensures Advance(v, p, n) == p.(byte := p.byte + n)
  {
    if n > 0 {
      AdvanceWithinSector(v, p, n - 1);
    }
  }

  /** A run of `n` steps that stays in the sector of `Advance(p, i0)` passes over consecutive bytes of it. */
  lemma RunInSector(v: Volume, p: Position, i0: nat, n: nat)
    requires v.Valid() && Advance(v, p, i0).byte + n <= v.Bps()
    ensures forall j :: i0 <= j < i0 + n ==>
              Advance(v, p, j) == Advance(v, p, i0).(byte := Advance(v, p, i0).byte + (j - i0))
  {
    var start := Advance(v, p, i0);
    forall j | i0 <= j < i0 + n
      ensures Advance(v, p, j) == start.(byte := start.byte + (j - i0))
    {
      AdvanceAdditive(v, p, i0, j - i0);
      AdvanceWithinSector(v, start, j - i0);
    }
  }

  /**
    Bytes copied from the sector under `Advance(p, i0)` while the cursor
    stays in that sector are the image bytes under the cursor.
   */
  lemma RunCopied(v: Volume, p: Position, i0: nat, n: nat, fetched: seq<byte>, buf: seq<byte>)
    requires v.Valid() && InRange(v, Advance(v, p, i0)) && Advance(v, p, i0).cluster != EOC
    requires fetched == v.GetSector(SectorIndex(v, Advance(v, p, i0).cluster, Advance(v, p, i0).sector))
    requires Advance(v, p, i0).byte + n <= v.Bps() && i0 + n <= |buf|
    requires Copied(buf, i0, i0 + n, fetched, Advance(v, p, i0).byte)
    ensures forall j :: i0 <= j < i0 + n ==> Advance(v, p, j).cluster != EOC
    ensures forall j :: i0 <= j < i0 + n ==> buf[j] == ByteAt(v, Advance(v, p, j))
  {
    RunInSector(v, p, i0, n);
  }

  /**
    Seeking a whole sector from the start of sector `s` of a cluster lands on
    the start of sector `s + 1`; from the last sector of the cluster it lands
    on the start of the cluster the FAT names next (or stays on `EOC`).
   */
  lemma AdvanceOneSector(v: Volume, cluster: nat, s: nat)
    requires v.Valid() && s < v.Spc()
    ensures Advance(v, Position(cluster, s, 0), v.Bps())
            == if s < v.Spc() - 1 then Position(cluster, s + 1, 0)
               else if cluster != EOC then Position(GetNextCluster(v, cluster), 0, 0)
               else Position(EOC, 0, 0)
  {
    var bps := v.Bps();
    AdvanceWithinSector(v, Position(cluster, s, 0), bps - 1);
    AdvanceSucc(v, Position(cluster, s, 0), bps - 1);
  }

  /**
    The absolute sector holding the cursor's sector, computed as `Fread`
    does in `unsigned int`: the cluster's first sector plus the sector index.
   */
  function SectorIndex(v: Volume, cluster: nat, sector: nat): (r: nat)
    requires v.Valid()
    ensures r < TwoTo32
  {
    Wrap32(ClusterFirstSector(v.bpb, cluster) + sector)
  }

  /** For a 16-bit cluster and a sector within it, the index is that sector of the cluster, before the next cluster starts. */
  lemma SectorIndexInCluster(v: Volume, cluster: nat, sector: nat)
    requires v.Valid() && 2 <= cluster <= 0xFFFF && sector < v.Spc()
    ensures SectorIndex(v, cluster, sector) == ClusterFirstSector(v.bpb, cluster) + sector
    ensures SectorIndex(v, cluster, sector) < ClusterFirstSector(v.bpb, cluster + 1)
  {
    ClusterSectorsAfterRoot(v.bpb, cluster);
  }

  /** The image byte under the cursor. */
  function ByteAt(v: Volume, p: Position): byte
    requires v.Valid() && p.byte < v.Bps()
  {
    v.GetSector(SectorIndex(v, p.cluster, p.sector))[p.byte]
  }

  /**
    The sector `GetNextCluster(cluster)` fetches last, which is what the
    shared sector buffer holds after the call.
   */
  function FatSectorLastRead(v: Volume, cluster: nat): (r: nat)
    requires v.Valid()
    ensures r >= ReservedSectors(v.bpb)
  {
    var (sector, offset) := SplitOffset(Wrap32(cluster * 3) / 2, v.Bps());
    ReservedSectors(v.bpb) + sector + (if offset == v.Bps() - 1 then 1 else 0)
  }

  /** For a 16-bit cluster that sector is the FAT sector holding the high byte of the cluster's entry. */
  lemma FatSectorLastReadHoldsHighByte(v: Volume, cluster: nat)
    requires v.Valid() && cluster <= 0xFFFF
    ensures FatSectorLastRead(v, cluster) == ReservedSectors(v.bpb) + (3 * cluster / 2 + 1) / v.Bps()
  {
    assert Wrap32(cluster * 3) == 3 * cluster;
    DivModSucc(3 * cluster / 2, v.Bps());
  }

  /** The first `j` in `from..size` at which the cursor sits on `EOC`, or `size` if there is none. */
  function FirstEoc(v: Volume, p: Position, from: nat, size: nat): (k: nat)
    requires v.Valid() && from <= size
    ensures from <= k <= size
    ensures k < size ==> Advance(v, p, k).cluster == EOC
    ensures forall j :: from <= j < k ==> Advance(v, p, j).cluster != EOC
    decreases size - from
  {
    if from == size then size
    else if Advance(v, p, from).cluster == EOC then from
    else FirstEoc(v, p, from + 1, size)
  }

  /** `FirstEoc` is the one count with no `EOC` before it and `EOC` (or the end) at it. */
  lemma FirstEocUnique(v: Volume, p: Position, size: nat, i: nat)
    requires v.Valid() && i <= size
    requires forall j :: 0 <= j < i ==> Advance(v, p, j).cluster != EOC
    requires i == size || Advance(v, p, i).cluster == EOC
    ensures FirstEoc(v, p, 0, size) == i
  {
  }

  /**
    How many bytes `Fread` copies from the image before it zero-fills the
    rest of a `size`-byte request.  A cursor at `EOC` copies none.  With two
    or more sectors per cluster the read stops at the first `EOC` it steps
    onto.  With one sector per cluster `Fread` never fetches again after its
    first fetch, so it never sees `EOC` and copies all `size` bytes.
   */
  function ReadLength(v: Volume, p: Position, size: nat): (k: nat)
    requires v.Valid()
    ensures k <= size
    ensures p.cluster == EOC ==> k == 0
  {
    if v.Spc() == 1 then (if p.cluster == EOC then 0 else size)
    else FirstEoc(v, p, 0, size)
  }

  /** With two or more sectors per cluster, every copied byte was read at a cursor that is not `EOC`. */
  lemma ReadLengthStopsAtEoc(v: Volume, p: Position, size: nat)
    requires v.Valid() && v.Spc() >= 2
    ensures var k := ReadLength(v, p, size);
      && (forall j :: 0 <= j < k ==> Advance(v, p, j).cluster != EOC)
      && (k < size ==> Advance(v, p, k).cluster == EOC)
  {
  }

  /** `buf` agrees with `original` outside `[i0, i)`. */
  predicate SameOutside(buf: seq<byte>, original: seq<byte>, i0: nat, i: nat)
  {
    |buf| == |original| && forall j :: 0 <= j < |buf| && !(i0 <= j < i) ==> buf[j] == original[j]
  }

  /** `buf[i0..i]` holds the bytes of `fetched` from `b0` on. */
  predicate Copied(buf: seq<byte>, i0: nat, i: nat, fetched: seq<byte>, b0: nat)
  {
    forall j :: i0 <= j < i ==> j < |buf| && b0 + (j - i0) < |fetched| && buf[j] == fetched[b0 + (j - i0)]
  }

  /**
    Where a run of the inner loop that started at `start`, buffer index `i0`,
    leaves the sector it fetched, if it gets that far by count `i`: the
    counts before it are those whose byte lies in that sector.
   */
  function InSectorEnd(v: Volume, start: Position, i0: nat, i: nat): (m: nat)
    requires v.Valid() && InRange(v, start) && i0 <= i
    ensures i0 <= m <= i
    ensures start.byte + (m - i0) <= v.Bps()
    ensures m < i ==> start.byte + (m - i0) == v.Bps()
  {
    if start.byte + (i - i0) <= v.Bps() then i else i0 + (v.Bps() - start.byte)
  }

  /**
    Writing buffer index `i` of a run that started at `start`: while the
    cursor is still in the fetched sector, writing its byte under the cursor
    extends the copied part by one; once it has left, the copied part stays
    as it was.  Either way only index `i` changes.
   */
  lemma ExtendRun(v: Volume, start: Position, before: seq<byte>, after: seq<byte>, original: seq<byte>,
                  i0: nat, i: nat, fetched: seq<byte>)
    requires v.Valid() && InRange(v, start) && |fetched| == v.Bps()
    requires i0 <= i < |before| && SameOutside(before, original, i0, i)
    requires Copied(before, i0, InSectorEnd(v, start, i0, i), fetched, start.byte)
    requires start.byte + (i - i0) < v.Bps() ==> after == before[i := fetched[start.byte + (i - i0)]]
    requires |after| == |before| && forall j :: 0 <= j < |after| && j != i ==> after[j] == before[j]
    ensures SameOutside(after, original, i0, i + 1)
    ensures Copied(after, i0, InSectorEnd(v, start, i0, i + 1), fetched, start.byte)
  {
    assert InSectorEnd(v, start, i0, i + 1)
           == if start.byte + (i - i0) < v.Bps() then i + 1 else InSectorEnd(v, start, i0, i);
  }

  /**
    A run the inner loop of `Fread` copied, seen from the start `p0` of the
    whole read: the cursor is `i` bytes past `p0`, and every byte copied
    before the cursor left the fetched sector is the image byte under the
    cursor at its count.  With two or more sectors per cluster the run never
    leaves that sector, so this covers the whole run.
   */
  lemma RunRead(v: Volume, p0: Position, i0: nat, i: nat, start: Position, fetched: seq<byte>,
                before: seq<byte>, after: seq<byte>)
    requires v.Valid() && InRange(v, start) && start == Advance(v, p0, i0) && start.cluster != EOC
    requires fetched == v.GetSector(SectorIndex(v, start.cluster, start.sector))
    requires i0 <= i <= |after| && SameOutside(after, before, i0, i)
    requires Copied(after, i0, InSectorEnd(v, start, i0, i), fetched, start.byte)
    requires v.Spc() >= 2 ==> start.byte + (i - i0) <= v.Bps()
    ensures Advance(v, start, i - i0) == Advance(v, p0, i)
    ensures forall j :: 0 <= j < |after| && !(i0 <= j < i) ==> after[j] == before[j]
    ensures forall j :: i0 <= j < InSectorEnd(v, start, i0, i) ==> Advance(v, p0, j).cluster != EOC
    ensures forall j :: i0 <= j < InSectorEnd(v, start, i0, i) ==> after[j] == ByteAt(v, Advance(v, p0, j))
    ensures v.Spc() >= 2 ==> InSectorEnd(v, start, i0, i) == i
  {
    var n := i - i0;
    assert Advance(v, start, n) == Advance(v, p0, i) by {
      AdvanceAdditive(v, p0, i0, n);
      assert i0 + n == i;
    }
    RunCopied(v, p0, i0, InSectorEnd(v, start, i0, i) - i0, fetched, after);
  }

  /** `File`: the cursor of one open file. */
  class File {
    var startCluster: nat
    var currentCluster: nat
    var currentSector: nat  // sector within the current cluster
    var currentByte: nat    // byte within the current sector

    function Pos(): Position
      reads this
    {
      Position(currentCluster, currentSector, currentByte)
    }

    /** `OpenFile`: a cursor at byte 0 of sector 0 of the file's first cluster. */
    constructor OpenFile(entry: DirectoryEntry)
      requires entry.WellFormed()
      ensures startCluster == ReadNumber(entry.startClusters)
      ensures startCluster == entry.startClusters[0] as int + 256 * entry.startClusters[1] as int
      ensures currentCluster == startCluster && currentSector == 0 && currentByte == 0
    {
      currentByte := 0;
      currentSector := 0;
      startCluster := ReadNumber(entry.startClusters);
      currentCluster := startCluster;
      ReadNumber2(entry.startClusters);
    }

    /** `CloseFile`: releasing the cursor leaves the volume and the cursor as they were. */
    method CloseFile()
      ensures unchanged(this)
    {
    }

    /**
      `Fseek(offset, origin)`: from the current position, or — for
      `F_SEEK_SET` — from byte 0 of sector 0 of the CURRENT cluster (the
      reset does not return to `startCluster`), step `offset` bytes forward.
     */
    method Fseek(v: Volume, offset: nat, origin: int)
      requires v.Valid()
      modifies this
      ensures startCluster == old(startCluster)
      ensures Pos() == Advance(v, if origin == F_SEEK_SET then Position(old(currentCluster), 0, 0)
                                  else old(Pos()), offset)
      ensures origin == F_SEEK_SET || old(InRange(v, Pos())) ==> InRange(v, Pos())
      ensures old(currentCluster) == EOC ==> currentCluster == EOC
    {
      if origin == F_SEEK_SET {
        currentByte := 0;
        currentSector := 0;
        startCluster := startCluster;  // the reset keeps both clusters as they are
      }
      ghost var from := Pos();
      var i := 0;
      while i < offset
        invariant 0 <= i <= offset
        invariant startCluster == old(startCluster)
        invariant Pos() == Advance(v, from, i)
      {
        if currentByte < v.Bps() - 1 {
          currentByte := currentByte + 1;
        } else {
          currentByte := 0;
          if currentSector < v.Spc() - 1 {
            currentSector := currentSector + 1;
          } else {
            currentSector := 0;
            if currentCluster != EOC {
              currentCluster := GetNextCluster(v, currentCluster);
            }
          }
        }
        i := i + 1;
      }
    }

    /**
      One round of the outer loop of `Fread` on a cursor that is not at
      `EOC`: fetch the sector under the cursor and run the inner loop
      (`CopyRun`), stated relative to the start `p0` of the whole read — the
      cursor is `i0` bytes past `p0` before the round and `i` bytes after it.
      Every byte copied before the cursor leaves the fetched sector is the
      image byte under the cursor; with two or more sectors per cluster the
      round ends when it leaves that sector, so that is every byte copied.
     */
    method CopySector(v: Volume, buffer: array<byte>, i0: nat, size: nat, ghost p0: Position)
      returns (i: nat)
      requires v.Valid() && InRange(v, p0) && InRange(v, Pos()) && currentCluster != EOC
      requires i0 < size <= buffer.Length
      requires Pos() == Advance(v, p0, i0)
      modifies this, buffer
      ensures i0 < i <= size
      ensures v.Spc() == 1 ==> i == size
      ensures startCluster == old(startCluster) && InRange(v, Pos())
      ensures Pos() == Advance(v, p0, i)
      ensures forall j :: 0 <= j < buffer.Length && !(i0 <= j < i) ==> buffer[j] == old(buffer[j])
      ensures v.Spc() >= 2 ==> forall j :: i0 <= j < i ==> Advance(v, p0, j).cluster != EOC
      ensures v.Spc() >= 2 ==> forall j :: i0 <= j < i ==> buffer[j] == ByteAt(v, Advance(v, p0, j))
      ensures forall j :: i0 <= j < i && old(currentByte) + (j - i0) < v.Bps() ==>
                buffer[j] == ByteAt(v, Advance(v, p0, j))
    {
      ghost var before := buffer[..];
      ghost var start, fetched;
      i, start, fetched := CopyRun(v, buffer, i0, size);
      RunRead(v, p0, i0, i, start, fetched, before, buffer[..]);
    }

    /**
      The fetch and the inner loop of `Fread`: read the sector the cursor is
      in, then copy its bytes, stepping the cursor with `Fseek(1,
      F_SEEK_CUR)` after each byte, until the request is complete or the
      sector index within the cluster changes.  `start` is the cursor the
      round starts from and `fetched` the sector it reads; the bytes copied
      before the cursor leaves that sector are its bytes from `start.byte`
      on (with one sector per cluster the loop goes on past it).
     */
    method CopyRun(v: Volume, buffer: array<byte>, i0: nat, size: nat)
      returns (i: nat, ghost start: Position, ghost fetched: seq<byte>)
      requires v.Valid() && InRange(v, Pos()) && i0 < size <= buffer.Length
      modifies this, buffer
      ensures i0 < i <= size
      ensures v.Spc() == 1 ==> i == size
      ensures start == old(Pos()) && fetched == v.GetSector(SectorIndex(v, start.cluster, start.sector))
      ensures startCluster == old(startCluster) && InRange(v, Pos())
      ensures Pos() == Advance(v, start, i - i0)
      ensures SameOutside(buffer[..], old(buffer[..]), i0, i)
      ensures v.Spc() >= 2 ==> start.byte + (i - i0) <= v.Bps()
      ensures Copied(buffer[..], i0, InSectorEnd(v, start, i0, i), fetched, start.byte)
    {
      var currentSectorInCluster := currentSector;
      var sectorIndex := SectorIndex(v, currentCluster, currentSectorInCluster);
      var sector := v.GetSector(sectorIndex);
      ghost var original := buffer[..];
      start, fetched := Pos(), sector;
      i := i0;
      while i < size && currentSector == currentSectorInCluster
        invariant i0 <= i <= size
        invariant startCluster == old(startCluster) && InRange(v, Pos())
        invariant Pos() == Advance(v, start, i - i0)
        invariant |sector| == v.Bps() && |fetched| == v.Bps()
        invariant SameOutside(buffer[..], original, i0, i)
        invariant v.Spc() >= 2 ==> start.byte + (i - i0) <= v.Bps()
        invariant v.Spc() >= 2 && currentSector == currentSectorInCluster ==>
                    Pos() == start.(byte := start.byte + (i - i0)) && sector == fetched
        invariant start.byte + (i - i0) < v.Bps() ==>
                    Pos() == start.(byte := start.byte + (i - i0)) && sector == fetched
        invariant Copied(buffer[..], i0, InSectorEnd(v, start, i0, i), fetched, start.byte)
      {
        sector := CopyByte(v, buffer, i, sector, i0, start, fetched, original, currentSectorInCluster);
        i := i + 1;
      }
    }

    /**
      One pass of the inner loop of `Fread`: copy the byte under the cursor
      from `sector` to `buffer[i]` and step with `Fseek(1, F_SEEK_CUR)`.  When
      the step leaves a cluster that is not `EOC`, `GetNextCluster` has read
      the FAT into the shared sector buffer that `sector` points into, so
      `sector` then shows that FAT sector.  The ghost parameters carry the
      run this pass extends: it started at `start` with buffer index `i0`,
      in sector `home` of the cluster, whose bytes are `fetched`.
     */
    method CopyByte(v: Volume, buffer: array<byte>, i: nat, sector: seq<byte>, ghost i0: nat,
                    ghost start: Position, ghost fetched: seq<byte>, ghost original: seq<byte>, ghost home: nat)
      returns (shown: seq<byte>)
      requires v.Valid() && InRange(v, start) && i0 <= i < buffer.Length && |sector| == v.Bps() && |fetched| == v.Bps()
      requires Pos() == Advance(v, start, i - i0) && currentSector == home
      requires SameOutside(buffer[..], original, i0, i)
      requires v.Spc() >= 2 ==> Pos() == start.(byte := start.byte + (i - i0)) && sector == fetched
      requires start.byte + (i - i0) < v.Bps() ==> Pos() == start.(byte := start.byte + (i - i0)) && sector == fetched
      requires Copied(buffer[..], i0, InSectorEnd(v, start, i0, i), fetched, start.byte)
      modifies this, buffer
      ensures startCluster == old(startCluster) && InRange(v, Pos())
      ensures Pos() == Advance(v, start, i + 1 - i0)
      ensures Pos() == Advance(v, old(Pos()), 1)
      ensures SameOutside(buffer[..], original, i0, i + 1)
      ensures |shown| == v.Bps()
      ensures v.Spc() >= 2 ==> start.byte + (i + 1 - i0) <= v.Bps()
      ensures v.Spc() >= 2 && currentSector == home ==>
                Pos() == start.(byte := start.byte + (i + 1 - i0)) && shown == fetched
      ensures start.byte + (i + 1 - i0) < v.Bps() ==>
                Pos() == start.(byte := start.byte + (i + 1 - i0)) && shown == fetched
      ensures Copied(buffer[..], i0, InSectorEnd(v, start, i0, i + 1), fetched, start.byte)
      ensures v.Spc() == 1 ==> currentSector == home
      ensures buffer[i] == sector[old(currentByte)]
      ensures shown == if old(currentByte) == v.Bps() - 1 && old(currentSector) == v.Spc() - 1
                          && old(currentCluster) != EOC
                       then v.GetSector(FatSectorLastRead(v, old(currentCluster))) else sector
    {
      ghost var q, before := Pos(), buffer[..];
      buffer[i] := sector[currentByte];
      ExtendRun(v, start, before, buffer[..], original, i0, i, fetched);
      var crossing := currentByte == v.Bps() - 1 && currentSector == v.Spc() - 1 && currentCluster != EOC;
      var from := currentCluster;
      Fseek(v, 1, F_SEEK_CUR);
      StepFacts(v, start, i - i0, q, Pos());
      shown := if crossing then v.GetSector(FatSectorLastRead(v, from)) else sector;
      if start.byte + (i + 1 - i0) < v.Bps() {
        AdvanceWithinSector(v, start, i + 1 - i0);
      }
    }

    /**
      `Fread(buffer, elementSize, elementCount)`: copy `elementSize *
      elementCount` bytes (an `unsigned int` product) from the cursor into
      `buffer`, advancing the cursor one byte per copied byte.  A sector is
      fetched only when the outer loop starts or the sector index within the
      cluster changes.  If the cursor is at `EOC` when a fetch is due, the
      rest of the request is zero-filled and the result is false (the C
      function's 0); otherwise it is true (1).  The bytes copied before the
      cursor first leaves the sector it starts in are the image bytes under
      the cursor; with two or more sectors per cluster every copied byte is.
      The size field of the directory entry is never consulted.
     */
    method Fread(v: Volume, buffer: array<byte>, elementSize: nat, elementCount: nat)
      returns (notEof: bool)
      requires v.Valid() && InRange(v, Pos())
      requires Wrap32(elementSize * elementCount) <= buffer.Length
      modifies this, buffer
      ensures startCluster == old(startCluster) && InRange(v, Pos())
      ensures var size, p := Wrap32(elementSize * elementCount), old(Pos());
        Pos() == Advance(v, p, ReadLength(v, p, size))
      ensures var size, p := Wrap32(elementSize * elementCount), old(Pos());
        notEof <==> ReadLength(v, p, size) == size
      ensures !notEof ==> currentCluster == EOC
      ensures var size, p := Wrap32(elementSize * elementCount), old(Pos());
        forall j :: ReadLength(v, p, size) <= j < size ==> buffer[j] == 0
      ensures forall j :: Wrap32(elementSize * elementCount) <= j < buffer.Length ==> buffer[j] == old(buffer[j])
      ensures var size, p := Wrap32(elementSize * elementCount), old(Pos());
        v.Spc() >= 2 ==> forall j :: 0 <= j < ReadLength(v, p, size) ==> buffer[j] == ByteAt(v, Advance(v, p, j))
      ensures var size, p := Wrap32(elementSize * elementCount), old(Pos());
        forall j :: 0 <= j < ReadLength(v, p, size) && p.byte + j < v.Bps() ==> buffer[j] == ByteAt(v, Advance(v, p, j))
    {
      var size := Wrap32(elementSize * elementCount);
      ghost var p0 := Pos();
      ghost var k := 0;
      notEof := true;
      var i := 0;
      while i < size && notEof
        invariant 0 <= i <= size
        invariant startCluster == old(startCluster) && InRange(v, Pos())
        invariant forall j :: size <= j < buffer.Length ==> buffer[j] == old(buffer[j])
        invariant k <= i
        invariant notEof ==> k == i && Pos() == Advance(v, p0, i)
        invariant notEof && p0.cluster == EOC ==> i == 0
        invariant notEof && v.Spc() == 1 ==> i == 0 || i == size
        invariant notEof && v.Spc() >= 2 ==> forall j :: 0 <= j < i ==> Advance(v, p0, j).cluster != EOC
        invariant v.Spc() >= 2 ==> forall j :: 0 <= j < k ==> buffer[j] == ByteAt(v, Advance(v, p0, j))
        invariant forall j :: 0 <= j < k && p0.byte + j < v.Bps() ==> buffer[j] == ByteAt(v, Advance(v, p0, j))
        invariant !notEof ==> k < i == size && k == ReadLength(v, p0, size) && Pos() == Advance(v, p0, k)
        invariant !notEof ==> forall j :: k <= j < size ==> buffer[j] == 0
        invariant !notEof ==> currentCluster == EOC
        decreases size - i + (if notEof then 1 else 0)
      {
        if currentCluster != EOC {
          i := CopySector(v, buffer, i, size, p0);
          k := i;
        } else {
          ReadStopsHere(v, p0, size, i);
          i := ZeroFill(buffer, i, size);
          notEof := false;
        }
      }
      if notEof {
        ReadStopsHere(v, p0, size, i);
      }
    }
  }

  /** The zero-filling loop of `Fread`: clear `buffer[from..size]`, leaving the rest alone. */
  method ZeroFill(buffer: array<byte>, from: nat, size: nat) returns (i: nat)
    requires from <= size <= buffer.Length
    modifies buffer
    ensures i == size
    ensures forall j :: from <= j < size ==> buffer[j] == 0
    ensures forall j :: 0 <= j < buffer.Length && !(from <= j < size) ==> buffer[j] == old(buffer[j])
  {
    i := from;
    while i < size
      invariant from <= i <= size
      invariant forall j :: from <= j < i ==> buffer[j] == 0
      invariant forall j :: 0 <= j < buffer.Length && !(from <= j < i) ==> buffer[j] == old(buffer[j])
    {
      buffer[i] := 0;
      i := i + 1;
    }
  }

  /** Where the loop of `Fread` stops copying, `ReadLength` says so. */
  lemma ReadStopsHere(v: Volume, p: Position, size: nat, i: nat)
    requires v.Valid() && i <= size
    requires p.cluster == EOC ==> i == 0
    requires v.Spc() == 1 ==> i == 0 || i == size
    requires v.Spc() >= 2 ==> forall j :: 0 <= j < i ==> Advance(v, p, j).cluster != EOC
    requires i == size || Advance(v, p, i).cluster == EOC
    ensures ReadLength(v, p, size) == i
  {
    if v.Spc() >= 2 {
      FirstEocUnique(v, p, size, i);
    } else if i < size {
      assert i == 0 && p.cluster == EOC;
    }
  }
}
