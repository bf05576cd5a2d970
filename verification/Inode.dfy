/** Sector-chunked file reads and writes refining one flat byte array (filesys/inode.c). */
module Inode {
  import opened Common

  const SECTOR_SIZE: nat := 512

  /** A disk is an array of sectors of 512 bytes each. */
  type Sector = s: seq<Byte> | |s| == SECTOR_SIZE witness seq(SECTOR_SIZE, i => 0)

  function ZeroSector(): Sector {
    seq(SECTOR_SIZE, i => 0)
  }

  /** Where a file's bytes are: byte k lives in sector start + k / 512. */
  datatype Extent = Extent(start: nat, length: nat)

  function BytesToSectors(size: nat): nat { (size + SECTOR_SIZE - 1) / SECTOR_SIZE }

  predicate Fits(disk: seq<Sector>, e: Extent) {
    e.start + BytesToSectors(e.length) <= |disk|
  }

  /** The bytes of n consecutive sectors, glued together. */
  function Glued(disk: seq<Sector>, start: nat, n: nat): (r: seq<Byte>)
    requires start + n <= |disk|
    ensures |r| == n * SECTOR_SIZE
  {
    if n == 0 then [] else Glued(disk, start, n - 1) + disk[start + n - 1]
  }

  /** The file as one flat byte array: the first `length` bytes of its sectors. */
  function Flat(disk: seq<Sector>, e: Extent): (r: seq<Byte>)
    requires Fits(disk, e)
    ensures |r| == e.length
  {
    Glued(disk, e.start, BytesToSectors(e.length))[..e.length]
  }

  lemma {:induction false} GluedAt(disk: seq<Sector>, start: nat, n: nat, k: nat)
    requires start + n <= |disk| && k < n * SECTOR_SIZE
    ensures Glued(disk, start, n)[k] == disk[start + k / SECTOR_SIZE][k % SECTOR_SIZE]
  {
    if k < (n - 1) * SECTOR_SIZE {
      GluedAt(disk, start, n - 1, k);
    } else {
      assert k / SECTOR_SIZE == n - 1;
    }
  }

  /** Byte k of a file lives in its sector k / 512. */
  lemma FlatAt(disk: seq<Sector>, e: Extent, k: nat)
    requires Fits(disk, e) && k < e.length
    ensures e.start + k / SECTOR_SIZE < |disk|
    ensures Flat(disk, e)[k] == disk[e.start + k / SECTOR_SIZE][k % SECTOR_SIZE]
  {
    GluedAt(disk, e.start, BytesToSectors(e.length), k);
  }

  /** The fewest sectors of 512 bytes that hold the file. */
  lemma SectorsCover(size: nat)
    ensures size <= 512 * BytesToSectors(size) < size + 512
  {
  }

  /** In plain numbers: byte k of the file is byte k % 512 of the sector k / 512 after its first. */
  lemma ByteStands(disk: seq<Sector>, e: Extent, k: nat)
    requires Fits(disk, e) && k < e.length
    ensures e.start + k / 512 < |disk| && k % 512 < |disk[e.start + k / 512]|
    ensures |Flat(disk, e)| == e.length && Flat(disk, e)[k] == disk[e.start + k / 512][k % 512]
  {
    FlatAt(disk, e, k);
  }

  /** Only the file's own sectors decide what it contains. */
  lemma FlatLocal(d: seq<Sector>, d': seq<Sector>, e: Extent)
    requires Fits(d, e) && |d'| == |d|
    requires forall k :: e.start <= k < e.start + BytesToSectors(e.length) ==> d'[k] == d[k]
    ensures Flat(d', e) == Flat(d, e)
  {
    forall k | 0 <= k < e.length
      ensures Flat(d', e)[k] == Flat(d, e)[k]
    {
      FlatAt(d, e, k);
      FlatAt(d', e, k);
    }
  }

  /** The position within the file of byte j of sector s; sectors in front of the file come out negative. */
  function Position(e: Extent, s: nat, j: nat): int {
    (s - e.start) * SECTOR_SIZE + j
  }

  /** Sector s after the bytes bs are laid over the file from position `offset` on. */
  function SplicedSector(disk: seq<Sector>, e: Extent, offset: nat, bs: seq<Byte>, s: nat): Sector
    requires s < |disk|
  {
    seq(SECTOR_SIZE, j requires 0 <= j < SECTOR_SIZE =>
      if offset <= Position(e, s, j) < offset + |bs| then bs[Position(e, s, j) - offset] else disk[s][j])
  }

  /** The disk after the bytes bs are laid over the file: every other byte of every sector stays. */
  function Spliced(disk: seq<Sector>, e: Extent, offset: nat, bs: seq<Byte>): (r: seq<Sector>)
    ensures |r| == |disk|
  {
    seq(|disk|, s requires 0 <= s < |disk| => SplicedSector(disk, e, offset, bs, s))
  }

  /**
   * How many bytes a call transfers: up to the end of the file, but without a bounce buffer only as many whole
   * sectors as come before the first partial one.
   */
  function Transferred(e: Extent, size: int, offset: nat, bounceOk: bool): nat {
    var total := Max(0, Min(size, e.length - offset));
    if bounceOk then total else if offset % SECTOR_SIZE != 0 then 0 else total / SECTOR_SIZE * SECTOR_SIZE
  }

  // ---------- Laws of the flat view ----------

  /** On the flat array a splice replaces exactly its own range. */
  lemma SplicedFlat(disk: seq<Sector>, e: Extent, offset: nat, bs: seq<Byte>)
    requires Fits(disk, e) && offset + |bs| <= e.length
    ensures Flat(Spliced(disk, e, offset, bs), e) == Flat(disk, e)[..offset] + bs + Flat(disk, e)[offset + |bs|..]
  {
    var d := Spliced(disk, e, offset, bs);
    forall k | 0 <= k < e.length
      ensures Flat(d, e)[k] == (Flat(disk, e)[..offset] + bs + Flat(disk, e)[offset + |bs|..])[k]
    {
      FlatAt(disk, e, k);
      FlatAt(d, e, k);
      var s, j := e.start + k / SECTOR_SIZE, k % SECTOR_SIZE;
      assert Position(e, s, j) == k;
      assert d[s] == SplicedSector(disk, e, offset, bs, s);
    }
  }

  ghost predicate Disjoint(e: Extent, f: Extent) {
    e.start + BytesToSectors(e.length) <= f.start || f.start + BytesToSectors(f.length) <= e.start
  }

  /** A splice stays within the file's own sectors, so it leaves every other file as it was. */
  lemma SplicedElsewhere(disk: seq<Sector>, e: Extent, offset: nat, bs: seq<Byte>, s: nat)
    requires offset + |bs| <= e.length && s < |disk|
    requires s < e.start || e.start + BytesToSectors(e.length) <= s
    ensures Spliced(disk, e, offset, bs)[s] == disk[s]
  {
    forall j | 0 <= j < SECTOR_SIZE
      ensures !(offset <= Position(e, s, j) < offset + |bs|)
    {
      if s >= e.start {
        assert s - e.start >= BytesToSectors(e.length);
      }
    }
  }

  lemma OtherFileUntouched(disk: seq<Sector>, e: Extent, offset: nat, bs: seq<Byte>, f: Extent)
    requires Fits(disk, e) && Fits(disk, f) && Disjoint(e, f) && offset + |bs| <= e.length
    ensures Flat(Spliced(disk, e, offset, bs), f) == Flat(disk, f)
  {
    var d := Spliced(disk, e, offset, bs);
    forall k | 0 <= k < f.length
      ensures Flat(d, f)[k] == Flat(disk, f)[k]
    {
      FlatAt(disk, f, k);
      FlatAt(d, f, k);
      SplicedElsewhere(disk, e, offset, bs, f.start + k / SECTOR_SIZE);
    }
  }

  /** Two consecutive splices are one. */
  lemma SplicedTwice(disk: seq<Sector>, e: Extent, offset: nat, bs: seq<Byte>, cs: seq<Byte>)
    ensures Spliced(Spliced(disk, e, offset, bs), e, offset + |bs|, cs) == Spliced(disk, e, offset, bs + cs)
  {
    var d := Spliced(disk, e, offset, bs);
    forall s | 0 <= s < |disk|
      ensures SplicedSector(d, e, offset + |bs|, cs, s) == SplicedSector(disk, e, offset, bs + cs, s)
    {
      assert d[s] == SplicedSector(disk, e, offset, bs, s);
    }
  }

  lemma SplicedNothing(disk: seq<Sector>, e: Extent, offset: nat)
    ensures Spliced(disk, e, offset, []) == disk
  {
    forall s | 0 <= s < |disk|
      ensures SplicedSector(disk, e, offset, [], s) == disk[s]
    {
    }
  }

  /** A splice within one sector only rewrites that sector. */
  lemma SplicedOneSector(disk: seq<Sector>, e: Extent, offset: nat, bs: seq<Byte>, s: nat, new_: Sector)
    requires s == e.start + offset / SECTOR_SIZE < |disk|
    requires offset % SECTOR_SIZE + |bs| <= SECTOR_SIZE
    requires new_ == disk[s][..offset % SECTOR_SIZE] + bs + disk[s][offset % SECTOR_SIZE + |bs|..]
    ensures disk[s := new_] == Spliced(disk, e, offset, bs)
  {
    forall t | 0 <= t < |disk|
      ensures disk[s := new_][t] == SplicedSector(disk, e, offset, bs, t)
    {
      forall j | 0 <= j < SECTOR_SIZE
        ensures disk[s := new_][t][j] == SplicedSector(disk, e, offset, bs, t)[j]
      {
        var p := Position(e, t, j);
        if t == s {
          assert p == offset - offset % SECTOR_SIZE + j;
        } else {
          assert !(offset <= p < offset + |bs|);
        }
      }
    }
  }

  /** A piece of the flat array that lies within one sector is a piece of that sector. */
  lemma FlatWithinSector(disk: seq<Sector>, e: Extent, offset: nat, n: nat)
    requires Fits(disk, e) && offset + n <= e.length && offset % SECTOR_SIZE + n <= SECTOR_SIZE && n > 0
    ensures e.start + offset / SECTOR_SIZE < |disk|
    ensures Flat(disk, e)[offset..offset + n] ==
            disk[e.start + offset / SECTOR_SIZE][offset % SECTOR_SIZE..offset % SECTOR_SIZE + n]
  {
    FlatAt(disk, e, offset);
    var sector := disk[e.start + offset / SECTOR_SIZE];
    var bs := Flat(disk, e)[offset..offset + n];
    forall k | 0 <= k < n
      ensures bs[k] == sector[offset % SECTOR_SIZE + k]
    {
      FlatAt(disk, e, offset + k);
      assert (offset + k) / SECTOR_SIZE == offset / SECTOR_SIZE &&
             (offset + k) % SECTOR_SIZE == offset % SECTOR_SIZE + k;
    }
  }

  // ---------- The code ----------

  class Disk {
    var sectors: seq<Sector>

    constructor (sectors: seq<Sector>)
      ensures this.sectors == sectors
    {
      this.sectors := sectors;
    }

    method Read(s: nat) returns (data: Sector)
      requires s < |sectors|
      ensures data == sectors[s]
    {
      data := sectors[s];
    }

    method Write(s: nat, data: Sector)
      requires s < |sectors|
      modifies this
      ensures sectors == old(sectors)[s := data]
    {
      sectors := sectors[s := data];
    }
  }

  /** The bytes of the current chunk: the least of what is wanted, left in the file and left in the sector. */
  function ChunkSize(e: Extent, size: int, offset: nat): int {
    Min(size, Min(e.length - offset, SECTOR_SIZE - offset % SECTOR_SIZE))
  }

  /** The loop may stop: at the end of the transfer, or for want of a bounce buffer at a partial sector. */
  predicate Stuck(e: Extent, left: int, offset: nat, bounceOk: bool) {
    || ChunkSize(e, left, offset) <= 0
    || (!bounceOk && !(offset % SECTOR_SIZE == 0 && ChunkSize(e, left, offset) == SECTOR_SIZE))
  }

  /** What both loops keep: how far they are, and that without a bounce buffer they move by whole sectors. */
  predicate Progress(e: Extent, size: int, offset: nat, bounceOk: bool, done: nat) {
    && done <= Max(0, Min(size, e.length - offset))
    && (!bounceOk ==> done % SECTOR_SIZE == 0 && (done > 0 ==> offset % SECTOR_SIZE == 0))
  }

  lemma ProgressOn(e: Extent, size: int, offset: nat, bounceOk: bool, done: nat)
    requires Progress(e, size, offset, bounceOk, done) && !Stuck(e, size - done, offset + done, bounceOk)
    ensures var n := ChunkSize(e, size - done, offset + done);
            && n > 0 && Progress(e, size, offset, bounceOk, done + n)
            && done + n <= size && offset + done + n <= e.length
            && n == ChunkSize(e, n, offset + done)
  {
  }

  /** Where a loop stops is what `Transferred` says. */
  lemma StuckAtTransferred(e: Extent, size: int, offset: nat, bounceOk: bool, done: nat)
    requires Progress(e, size, offset, bounceOk, done) && Stuck(e, size - done, offset + done, bounceOk)
    ensures done == Transferred(e, size, offset, bounceOk)
  {
  }

  /** The n bytes of s from position i on; for n = 0 the position need not exist. */
  function Slice(s: seq<Byte>, i: nat, n: nat): (r: seq<Byte>)
    requires n > 0 ==> i + n <= |s|
    ensures |r| == n
  {
    if n == 0 then [] else s[i..i + n]
  }

  lemma SliceOn(s: seq<Byte>, i: nat, n: nat, chunk: seq<Byte>, j: nat, k: nat)
    requires j == i + n && 0 < k == |chunk| && j + k <= |s| && chunk == s[j..j + k]
    ensures Slice(s, i, n) + chunk == Slice(s, i, n + k)
  {
  }

  class Inode {
    const disk: Disk
    var data: Extent
    var denyWriteCnt: nat

    constructor (disk: Disk, data: Extent)
      ensures this.disk == disk && this.data == data && denyWriteCnt == 0
    {
      this.disk := disk;
      this.data := data;
      denyWriteCnt := 0;
    }

    predicate Valid()
      reads this, disk
    {
      Fits(disk.sectors, data)
    }

    /** `byte_to_sector`: -1 when the file has no byte at that position. */
    function ByteToSector(pos: nat): int
      reads this
    {
      if pos < data.length then data.start + pos / SECTOR_SIZE else -1
    }

    /** One step of the read loop: a whole sector directly, a partial one through the bounce buffer. */
    method ReadChunk(offset: nat, chunkSize: nat, bounceOk: bool) returns (ok: bool, chunk: seq<Byte>)
      requires Valid() && 0 < chunkSize <= ChunkSize(data, chunkSize, offset)
      ensures ok <==> bounceOk || (offset % SECTOR_SIZE == 0 && chunkSize == SECTOR_SIZE)
      ensures ok ==> chunk == Flat(disk.sectors, data)[offset..offset + chunkSize]
    {
      var sectorIdx := ByteToSector(offset);
      var sectorOfs := offset % SECTOR_SIZE;
      FlatWithinSector(disk.sectors, data, offset, chunkSize);
      if sectorOfs == 0 && chunkSize == SECTOR_SIZE {
        chunk := disk.Read(sectorIdx);
        ok := true;
      } else if !bounceOk {
        ok, chunk := false, [];
      } else {
        var bounce := disk.Read(sectorIdx);
        ok, chunk := true, bounce[sectorOfs..sectorOfs + chunkSize];
      }
    }

    /** One step of the write loop; a partial sector is read first, unless the chunk covers all of it. */
    method WriteChunk(offset: nat, chunk: seq<Byte>, bounceOk: bool) returns (ok: bool)
      requires Valid() && 0 < |chunk| <= ChunkSize(data, |chunk|, offset)
      modifies disk
      ensures ok <==> bounceOk || (offset % SECTOR_SIZE == 0 && |chunk| == SECTOR_SIZE)
      ensures disk.sectors == if ok then Spliced(old(disk.sectors), data, offset, chunk) else old(disk.sectors)
    {
      var sectorIdx := ByteToSector(offset);
      var sectorOfs := offset % SECTOR_SIZE;
      var sectorLeft := SECTOR_SIZE - sectorOfs;
      FlatWithinSector(disk.sectors, data, offset, |chunk|);
      if sectorOfs == 0 && |chunk| == SECTOR_SIZE {
        SplicedOneSector(disk.sectors, data, offset, chunk, sectorIdx, chunk);
        disk.Write(sectorIdx, chunk);
        ok := true;
      } else if !bounceOk {
        ok := false;
      } else {
        var bounce := ZeroSector();
        if sectorOfs > 0 || |chunk| < sectorLeft {
          bounce := disk.Read(sectorIdx);
        }
        bounce := bounce[..sectorOfs] + chunk + bounce[sectorOfs + |chunk|..];
        SplicedOneSector(disk.sectors, data, offset, chunk, sectorIdx, bounce);
        disk.Write(sectorIdx, bounce);
        ok := true;
      }
    }

    /** `inode_read_at`: copies a slice of the flat array into the caller's buffer. */
    method ReadAt(buffer: array<Byte>, size0: int, offset0: nat, bounceOk: bool) returns (bytesRead: nat)
      requires Valid() && size0 <= buffer.Length
      modifies buffer
      ensures bytesRead == Transferred(data, size0, offset0, bounceOk) <= buffer.Length
      ensures bytesRead > 0 ==> offset0 + bytesRead <= data.length
      ensures buffer[..] == Slice(Flat(disk.sectors, data), offset0, bytesRead) + old(buffer[..])[bytesRead..]
    {
      var size, offset := size0, offset0;
      bytesRead := 0;
      ghost var s0, flat := buffer[..], Flat(disk.sectors, data);
      ghost var got := Slice(flat, offset0, 0);
      NothingFilled(s0);
      while size > 0
        invariant Progress(data, size0, offset0, bounceOk, bytesRead)
        invariant size == size0 - bytesRead && offset == offset0 + bytesRead
        invariant bytesRead <= buffer.Length && (bytesRead > 0 ==> offset <= data.length)
        invariant got == Slice(flat, offset0, bytesRead) && |got| == bytesRead && Filled(buffer[..], got, s0)
      {
        var chunkSize := ChunkSize(data, size, offset);
        if chunkSize <= 0 {
          break;
        }
        var ok, chunk := ReadChunk(offset, chunkSize, bounceOk);
        if !ok {
          break;
        }
        ProgressOn(data, size0, offset0, bounceOk, bytesRead);
        SliceOn(flat, offset0, bytesRead, chunk, offset, chunkSize);
        Copy(buffer, bytesRead, chunk, got, s0);
        got := got + chunk;
        size := size - chunkSize;
        offset := offset + chunkSize;
        bytesRead := bytesRead + chunkSize;
      }
      StuckAtTransferred(data, size0, offset0, bounceOk, bytesRead);
    }

    /** `inode_write_at`: lays the caller's bytes over the flat array; nothing while writes are denied. */
    method WriteAt(buffer: array<Byte>, size0: int, offset0: nat, bounceOk: bool) returns (bytesWritten: nat)
      requires Valid() && size0 <= buffer.Length
      modifies disk
      ensures Valid()
      ensures bytesWritten == if denyWriteCnt > 0 then 0 else Transferred(data, size0, offset0, bounceOk)
      ensures bytesWritten <= buffer.Length && (bytesWritten > 0 ==> offset0 + bytesWritten <= data.length)
      ensures disk.sectors == Spliced(old(disk.sectors), data, offset0, buffer[..bytesWritten])
    {
      var size, offset := size0, offset0;
      ghost var d0 := disk.sectors;
      bytesWritten := 0;
      SplicedNothing(d0, data, offset0);
      assert buffer[..0] == [];
      if denyWriteCnt > 0 {
        return;
      }
      while size > 0
        invariant Valid()
        invariant Progress(data, size0, offset0, bounceOk, bytesWritten)
        invariant size == size0 - bytesWritten && offset == offset0 + bytesWritten
        invariant bytesWritten <= buffer.Length && (bytesWritten > 0 ==> offset <= data.length)
        invariant disk.sectors == Spliced(d0, data, offset0, buffer[..bytesWritten])
      {
        var chunkSize := ChunkSize(data, size, offset);
        if chunkSize <= 0 {
          break;
        }
        var chunk := buffer[bytesWritten..bytesWritten + chunkSize];
        var ok := WriteChunk(offset, chunk, bounceOk);
        if !ok {
          break;
        }
        ProgressOn(data, size0, offset0, bounceOk, bytesWritten);
        SplicedTwice(d0, data, offset0, buffer[..bytesWritten], chunk);
        assert buffer[..bytesWritten] + chunk == buffer[..bytesWritten + chunkSize];
        size := size - chunkSize;
        offset := offset + chunkSize;
        bytesWritten := bytesWritten + chunkSize;
      }
      StuckAtTransferred(data, size0, offset0, bounceOk, bytesWritten);
    }
  }

  /** A read that follows a write of the same range returns the bytes written, and no other file changes. */
  method WriteThenRead(inode: Inode, other: Extent, src: array<Byte>, dst: array<Byte>, offset: nat)
      returns (w: nat, r: nat)
    requires inode.Valid() && inode.denyWriteCnt == 0 && src != dst && src.Length <= dst.Length
    requires Fits(inode.disk.sectors, other) && Disjoint(inode.data, other)
    modifies inode.disk, dst
    ensures w == r == Max(0, Min(src.Length, inode.data.length - offset))
    ensures dst[..r] == src[..w]
    ensures Fits(inode.disk.sectors, other) && Flat(inode.disk.sectors, other) == old(Flat(inode.disk.sectors, other))
  {
    ghost var d0, e := inode.disk.sectors, inode.data;
    w := inode.WriteAt(src, src.Length, offset, true);
    ghost var bs := src[..w];
    r := inode.ReadAt(dst, src.Length, offset, true);
    if w > 0 {
      SplicedFlat(d0, e, offset, bs);
      OtherFileUntouched(d0, e, offset, bs, other);
      assert dst[..r] == bs;
    } else {
      SplicedNothing(d0, e, offset);
      assert bs == [];
    }
  }

  /** The bytes got stand at the start of the buffer, and behind them what was there before. */
  ghost predicate Filled(buffer: seq<Byte>, got: seq<Byte>, s0: seq<Byte>) {
    |got| <= |s0| && buffer == got + s0[|got|..]
  }

  lemma NothingFilled(s0: seq<Byte>)
    ensures Filled(s0, [], s0)
  {
  }

  /** `memcpy` behind the part of the buffer that is already filled; s0 is the buffer before any of it. */
  method Copy(a: array<Byte>, at: nat, bs: seq<Byte>, ghost filled: seq<Byte>, ghost s0: seq<Byte>)
    requires at + |bs| <= a.Length == |s0| && at == |filled|
    requires Filled(a[..], filled, s0)
    modifies a
    ensures Filled(a[..], filled + bs, s0)
  {
    for i := 0 to |bs|
      invariant a[..] == (filled + bs[..i]) + s0[at + i..]
    {
      a[at + i] := bs[i];
    }
    assert bs[..|bs|] == bs;
  }
}
