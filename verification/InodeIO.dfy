/** Byte-level reads and writes of a file (src/filesys/inode.c), done sector by sector with a
    bounce buffer, against the flat array of bytes they stand for. */
module InodeIO {
  import opened Common
  import A = Arithmetic

  /** `struct inode_disk`: where the data is and how long the file is. */
  datatype Extent = Extent(start: nat, length: nat)

  function BytesToSectors(size: nat): nat { (size + 511) / 512 }

  /** The least number of sectors that hold that many bytes. */
  lemma SectorsExact(size: nat)
    ensures 512 * (BytesToSectors(size) - 1) < size <= 512 * BytesToSectors(size)
  {}

  ghost predicate Fits(e: Extent, disk: seq<Sector>) {
    e.start + BytesToSectors(e.length) <= |disk|
  }

  /** The disk as one array of bytes. */
  ghost function ByteAt(disk: seq<Sector>, i: int): Byte
    requires 0 <= i < 512 * |disk|
  {
    disk[i / 512][i % 512]
  }

  /** The contents of a file. */
  ghost function FileBytes(disk: seq<Sector>, e: Extent): (b: seq<Byte>)
    requires Fits(e, disk)
    ensures |b| == e.length
    ensures forall i | 0 <= i < e.length :: b[i] == ByteAt(disk, 512 * e.start + i)
  {
    seq(e.length, i requires 0 <= i < e.length => ByteAt(disk, 512 * e.start + i))
  }

  /** How many bytes a transfer moves: none past the end of the file, and, if the bounce
      buffer cannot be had, none beyond the leading whole sectors. */
  function Transfer(length: nat, size: int, offset: nat, memory: bool): nat {
    var n := if size <= 0 || offset >= length then 0 else Min(size, length - offset);
    if memory then n else if offset % 512 == 0 then n / 512 * 512 else 0
  }

  /** With a buffer, as many bytes as asked for and in the file; without, whole sectors only, as many
      of these as possible if the offset is at the start of one. */
  lemma TransferExact(length: nat, size: int, offset: nat, memory: bool)
    ensures var n, t := Max(0, Min(size, length - offset)), Transfer(length, size, offset, memory);
            && (memory ==> t == n)
            && (!memory && offset % 512 == 0 ==> t % 512 == 0 && t <= n < t + 512)
            && (!memory && offset % 512 != 0 ==> t == 0)
  {}

  /** Bytes moved by one round of the loop; not positive at the end of the file. */
  function Chunk(length: nat, size: int, offset: nat): int {
    Min(size, Min(length - offset, 512 - offset % 512))
  }

  /** Where a round begins as the code computes it, with division that truncates toward zero: the
      sector, counted from the first one of the file, and the position in the sector. */
  function Place(offset: int): (int, int) { (A.Quotient(offset, 512), A.Remainder(offset, 512)) }

  /** The bytes that a round then moves. */
  function ChunkAt(length: nat, size: int, offset: int): int {
    Min(size, Min(length - offset, 512 - Place(offset).1))
  }

  /** No offset is rejected, but a round that moves anything stays within one sector of the file
      exactly if the offset is not negative. */
  lemma OffsetExact(length: nat, size: int, offset: int)
    requires ChunkAt(length, size, offset) > 0
    ensures var (sector, ofs) := Place(offset);
            (0 <= sector < BytesToSectors(length) && 0 <= ofs && ofs + ChunkAt(length, size, offset) <= 512) <==>
            offset >= 0
    ensures offset >= 0 ==> Place(offset) == (offset / 512, offset % 512)
                            && ChunkAt(length, size, offset) == Chunk(length, size, offset)
  {
    if offset < 0 { assert -offset == 512 * (-offset / 512) + -offset % 512; }
  }

  /** Reading 512 bytes at offset -512 moves the whole sector before the file. */
  lemma BeforeFile(length: nat)
    ensures Place(-512) == (-1, 0) && ChunkAt(length, 512, -512) == 512
  {}

  /** What the loop knows about its progress: while the bounce buffer has not been needed,
      only whole sectors have been moved. */
  predicate Progress(length: nat, size: int, offset: nat, done: nat, bounce: bool, memory: bool) {
    && done <= Transfer(length, size, offset, true)
    && (bounce ==> memory)
    && (!bounce ==> done % 512 == 0 && (done > 0 ==> offset % 512 == 0))
  }

  /** One round stays inside one sector of the file ... */
  lemma ChunkInside(length: nat, size: int, offset: nat)
    requires Chunk(length, size, offset) > 0
    ensures var chunk := Chunk(length, size, offset);
            offset + chunk <= length && offset % 512 + chunk <= 512 && offset / 512 < BytesToSectors(length)
  {}

  /** ... and moves the progress on. */
  lemma ChunkStep(length: nat, size: int, offset: nat, done: nat, bounce: bool, memory: bool)
    requires Progress(length, size, offset, done, bounce, memory) && done < size
    requires Chunk(length, size - done, offset + done) > 0
    ensures var whole := (offset + done) % 512 == 0 && Chunk(length, size - done, offset + done) == 512;
            whole || memory ==>
              Progress(length, size, offset, done + Chunk(length, size - done, offset + done), bounce || !whole, memory)
  {
    var chunk := Chunk(length, size - done, offset + done);
    assert done + chunk <= Min(size, length - offset);
    if !bounce && (offset + done) % 512 == 0 && chunk == 512 { WholeSectors(offset, done); }
  }

  lemma WholeSectors(offset: nat, done: nat)
    requires done % 512 == 0 && (offset + done) % 512 == 0
    ensures (done + 512) % 512 == 0 && offset % 512 == 0
  {}

  /** The loop ends with the count it should, when nothing is left ... */
  lemma ChunkEnd(length: nat, size: int, offset: nat, done: nat, bounce: bool, memory: bool)
    requires Progress(length, size, offset, done, bounce, memory)
    requires done >= size || Chunk(length, size - done, offset + done) <= 0
    ensures done == Transfer(length, size, offset, memory)
  {
    assert done == Transfer(length, size, offset, true);
  }

  /** ... and when a partial sector comes up but no bounce buffer can be had. */
  lemma ChunkStuck(length: nat, size: int, offset: nat, done: nat)
    requires Progress(length, size, offset, done, false, false) && done < size
    requires var chunk := Chunk(length, size - done, offset + done);
             chunk > 0 && !((offset + done) % 512 == 0 && chunk == 512)
    ensures done == Transfer(length, size, offset, false)
  {
    var n := Transfer(length, size, offset, true);
    if offset % 512 == 0 {
      assert (offset + done) % 512 == 0;
      assert n - done < 512;
    }
  }

  /** `disk` with `src` written from byte `p` on. */
  ghost predicate Overwritten(disk: seq<Sector>, disk': seq<Sector>, p: nat, src: seq<Byte>) {
    && |disk'| == |disk|
    && forall i | 0 <= i < 512 * |disk| ::
         ByteAt(disk', i) == if p <= i < p + |src| then src[i - p] else ByteAt(disk, i)
  }

  /** One sector written: the bytes of that sector change and no others. */
  lemma OneSector(disk: seq<Sector>, idx: nat, ofs: nat, src: seq<Byte>, sector: Sector)
    requires idx < |disk| && ofs + |src| <= 512
    requires sector == disk[idx][..ofs] + src + disk[idx][ofs + |src|..]
    ensures Overwritten(disk, disk[idx := sector], 512 * idx + ofs, src)
  {
    var disk' := disk[idx := sector];
    forall i | 0 <= i < 512 * |disk|
      ensures ByteAt(disk', i) ==
        if 512 * idx + ofs <= i < 512 * idx + ofs + |src| then src[i - 512 * idx - ofs] else ByteAt(disk, i)
    {
      if i / 512 == idx {
        assert i == 512 * idx + i % 512;
      }
    }
  }

  /** Consecutive writes compose. */
  lemma OverwriteTwice(d0: seq<Sector>, d1: seq<Sector>, d2: seq<Sector>, p: nat, a: seq<Byte>, b: seq<Byte>)
    requires Overwritten(d0, d1, p, a) && Overwritten(d1, d2, p + |a|, b)
    ensures Overwritten(d0, d2, p, a + b)
  {
    forall i | 0 <= i < 512 * |d0|
      ensures ByteAt(d2, i) == if p <= i < p + |a + b| then (a + b)[i - p] else ByteAt(d0, i)
    {
      assert ByteAt(d1, i) == if p <= i < p + |a| then a[i - p] else ByteAt(d0, i);
    }
  }

  /** What an overwrite inside a file means for that file. */
  lemma FileOverwritten(disk: seq<Sector>, disk': seq<Sector>, e: Extent, offset: nat, src: seq<Byte>)
    requires Fits(e, disk) && offset + |src| <= e.length
    requires Overwritten(disk, disk', 512 * e.start + offset, src)
    ensures Fits(e, disk')
    ensures FileBytes(disk', e) ==
              FileBytes(disk, e)[..offset] + src + FileBytes(disk, e)[offset + |src|..]
  {}

  /** Files that do not share sectors with it are not affected. */
  lemma OtherFileKept(disk: seq<Sector>, disk': seq<Sector>, e: Extent, offset: nat, src: seq<Byte>, f: Extent)
    requires Fits(e, disk) && Fits(f, disk) && offset + |src| <= e.length
    requires Overwritten(disk, disk', 512 * e.start + offset, src)
    requires f.start + BytesToSectors(f.length) <= e.start || e.start + BytesToSectors(e.length) <= f.start
    ensures FileBytes(disk', f) == FileBytes(disk, f)
  {
    forall i | 0 <= i < f.length ensures FileBytes(disk', f)[i] == FileBytes(disk, f)[i] {
      var j := 512 * f.start + i;
      assert !(512 * e.start + offset <= j < 512 * e.start + offset + |src|);
      assert ByteAt(disk', j) == ByteAt(disk, j);
    }
  }

  class Device {
    var sectors: seq<Sector>

    /** `inode_read_at`.  `memory` says whether the bounce buffer can be allocated. */
    method ReadAt(e: Extent, buffer: array<Byte>, size: int, offset: nat, memory: bool)
      returns (bytesRead: nat)
      requires Fits(e, sectors) && size <= buffer.Length
      modifies buffer
      ensures bytesRead == Transfer(e.length, size, offset, memory)
      ensures bytesRead > 0 ==>
                offset + bytesRead <= e.length
                && buffer[..bytesRead] == FileBytes(sectors, e)[offset..offset + bytesRead]
      ensures forall i | bytesRead <= i < buffer.Length :: buffer[i] == old(buffer[i])
    {
      bytesRead := 0;
      var bounce := false;
      ghost var file := FileBytes(sectors, e);
      while bytesRead < size
        invariant Progress(e.length, size, offset, bytesRead, bounce, memory)
        invariant forall i | 0 <= i < bytesRead :: buffer[i] == file[offset + i]
        invariant forall i | bytesRead <= i < buffer.Length :: buffer[i] == old(buffer[i])
      {
        var ofs := offset + bytesRead;
        var chunk := Chunk(e.length, size - bytesRead, ofs);
        if chunk <= 0 {
          break;
        }
        ChunkInside(e.length, size - bytesRead, ofs);
        ChunkStep(e.length, size, offset, bytesRead, bounce, memory);
        if !(ofs % 512 == 0 && chunk == 512) {
          if !bounce && !memory {
            ChunkStuck(e.length, size, offset, bytesRead);
            return;
          }
          bounce := true;
        }
        CopyOut(e, ofs, chunk, buffer, bytesRead);
        bytesRead := bytesRead + chunk;
      }
      ChunkEnd(e.length, size, offset, bytesRead, bounce, memory);
    }

    /** The part of one sector that a round of `ReadAt` copies to the caller. */
    method CopyOut(e: Extent, ofs: nat, chunk: nat, buffer: array<Byte>, at: nat)
      requires Fits(e, sectors) && ofs + chunk <= e.length && 0 < chunk && ofs % 512 + chunk <= 512
      requires at + chunk <= buffer.Length && ofs / 512 < BytesToSectors(e.length)
      modifies buffer
      ensures forall i | at <= i < at + chunk :: buffer[i] == FileBytes(sectors, e)[ofs + i - at]
      ensures forall i | 0 <= i < buffer.Length && !(at <= i < at + chunk) :: buffer[i] == old(buffer[i])
    {
      SectorPart(sectors, e, ofs, chunk);
      var part := sectors[e.start + ofs / 512][ofs % 512..ofs % 512 + chunk];
      forall i | at <= i < at + chunk {
        buffer[i] := part[i - at];
      }
    }

    /** `inode_write_at`.  Where the source chooses between reading the sector first and
        starting from zeros, the second choice is never taken: a chunk that begins at the
        start of a sector and leaves nothing after it is a whole sector. */
    method WriteAt(e: Extent, denyWriteCnt: nat, buffer: seq<Byte>, size: int, offset: nat, memory: bool)
      returns (bytesWritten: nat)
      requires Fits(e, sectors) && size <= |buffer|
      modifies this
      ensures bytesWritten == if denyWriteCnt > 0 then 0 else Transfer(e.length, size, offset, memory)
      ensures bytesWritten <= |buffer|
      ensures bytesWritten > 0 ==> offset + bytesWritten <= e.length
      ensures Overwritten(old(sectors), sectors, 512 * e.start + offset, buffer[..bytesWritten])
    {
      bytesWritten := 0;
      if denyWriteCnt > 0 {
        return;
      }
      ghost var before := sectors;
      var bounce := false;
      while bytesWritten < size
        invariant Progress(e.length, size, offset, bytesWritten, bounce, memory)
        invariant Fits(e, sectors) && bytesWritten <= |buffer|
        invariant Overwritten(before, sectors, 512 * e.start + offset, buffer[..bytesWritten])
      {
        var ofs := offset + bytesWritten;
        var chunk := Chunk(e.length, size - bytesWritten, ofs);
        if chunk <= 0 {
          break;
        }
        ChunkInside(e.length, size - bytesWritten, ofs);
        ChunkStep(e.length, size, offset, bytesWritten, bounce, memory);
        if !(ofs % 512 == 0 && chunk == 512) {
          if !bounce && !memory {
            ChunkStuck(e.length, size, offset, bytesWritten);
            return;
          }
          assert ofs % 512 > 0 || chunk < 512 - ofs % 512;
          bounce := true;
        }
        CopyIn(e, ofs, chunk, buffer, bytesWritten, before);
        bytesWritten := bytesWritten + chunk;
      }
      ChunkEnd(e.length, size, offset, bytesWritten, bounce, memory);
    }

    /** Read, modify and write back one sector. */
    method CopyIn(e: Extent, ofs: nat, chunk: nat, buffer: seq<Byte>, at: nat, ghost before: seq<Sector>)
      requires Fits(e, sectors) && ofs + chunk <= e.length && ofs % 512 + chunk <= 512
      requires at <= ofs && at + chunk <= |buffer| && ofs / 512 < BytesToSectors(e.length)
      requires Overwritten(before, sectors, 512 * e.start + ofs - at, buffer[..at])
      modifies this
      ensures |sectors| == old(|sectors|)
      ensures Overwritten(before, sectors, 512 * e.start + ofs - at, buffer[..at + chunk])
    {
      var part := buffer[at..at + chunk];
      var idx, sectorOfs := e.start + ofs / 512, ofs % 512;
      var sector := sectors[idx][..sectorOfs] + part + sectors[idx][sectorOfs + |part|..];
      OneSector(sectors, idx, sectorOfs, part, sector);
      OverwriteTwice(before, sectors, sectors[idx := sector], 512 * e.start + ofs - at, buffer[..at], part);
      assert buffer[..at] + part == buffer[..at + chunk];
      sectors := sectors[idx := sector];
    }
  }

  /** A range inside one sector, seen as part of the file. */
  lemma SectorPart(disk: seq<Sector>, e: Extent, ofs: nat, n: nat)
    requires Fits(e, disk) && ofs + n <= e.length && ofs % 512 + n <= 512
    requires ofs / 512 < BytesToSectors(e.length)
    ensures disk[e.start + ofs / 512][ofs % 512..ofs % 512 + n] == FileBytes(disk, e)[ofs..ofs + n]
  {
    var a, b := disk[e.start + ofs / 512][ofs % 512..ofs % 512 + n], FileBytes(disk, e)[ofs..ofs + n];
    forall i | 0 <= i < n ensures a[i] == b[i] {
      SameSector(e, ofs, i);
    }
  }

  lemma SameSector(e: Extent, ofs: nat, i: nat)
    requires ofs % 512 + i < 512
    ensures (512 * e.start + ofs + i) / 512 == e.start + ofs / 512
    ensures (512 * e.start + ofs + i) % 512 == ofs % 512 + i
  {}
}
