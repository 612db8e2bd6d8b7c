/** Loading a PT_LOAD segment (src/userprog/process.c; the program header is that of the TIS ELF
    specification, book I, chapter 2). */
module ElfLoad {
  import opened Common
  import opened Pte
  import A = Arithmetic
  import IO = InodeIO

  /** The fields of `struct Elf32_Phdr` that matter for loading. */
  datatype Phdr = Phdr(offset: A.Word32, vaddr: A.Word32, filesz: A.Word32, memsz: A.Word32, flags: A.Word32)

  const PF_W: nat := 2

  /** `validate_segment`, in 32-bit arithmetic. */
  predicate Validate(ph: Phdr, fileLength: nat) {
    && PgOfs(ph.offset) == PgOfs(ph.vaddr)
    && ph.offset <= fileLength
    && ph.memsz >= ph.filesz
    && ph.memsz != 0
    && ph.vaddr < PHYS_BASE
    && A.Wrap32(ph.vaddr + ph.memsz) < PHYS_BASE
    && A.Wrap32(ph.vaddr + ph.memsz) >= ph.vaddr
    && ph.vaddr >= PGSIZE
  }

  /** What is valid: the segment lies at the same offset in its pages in the file and in memory,
      starts inside the file, has at least as many bytes in memory as in the file, and at least one,
      and is within user memory, above page 0. */
  predicate Valid(ph: Phdr, fileLength: nat) {
    && ph.offset % 4096 == ph.vaddr % 4096 && ph.offset <= fileLength
    && ph.filesz <= ph.memsz && 0 < ph.memsz
    && 4096 <= ph.vaddr && ph.vaddr + ph.memsz < PHYS_BASE
  }

  /** The tests of the code, whose sums may wrap around, accept exactly the valid segments. */
  lemma ValidateExact(ph: Phdr, fileLength: nat)
    ensures Validate(ph, fileLength) <==> Valid(ph, fileLength)
  {
    OffsetBits(ph.offset);
    OffsetBits(ph.vaddr);
    if ph.vaddr + ph.memsz >= 0x1_0000_0000 {
      assert A.Wrap32(ph.vaddr + ph.memsz) == ph.vaddr + ph.memsz - 0x1_0000_0000;
    }
  }

  function RoundDown(x: nat): nat { x / 4096 * 4096 }

  function RoundUp(x: nat): nat { (x + 4095) / 4096 * 4096 }

  /** `ROUND_UP` as it is computed, in 32 bits. */
  function RoundUp32(x: A.Word32): nat { A.Wrap32(x + 4095) / 4096 * 4096 }

  /** Byte `x` of a segment image that has `readBytes` bytes from the file at `ofs`. */
  function ImageByte(file: seq<Byte>, ofs: nat, readBytes: nat, x: nat): Byte {
    if x < readBytes && ofs + x < |file| then file[ofs + x] else 0
  }

  function PageImage(file: seq<Byte>, ofs: nat, readBytes: nat, j: nat): (s: seq<Byte>)
    ensures |s| == 4096
    ensures forall i | 0 <= i < 4096 :: s[i] == ImageByte(file, ofs, readBytes, 4096 * j + i)
  {
    seq(4096, i requires 0 <= i => ImageByte(file, ofs, readBytes, 4096 * j + i))
  }

  datatype UserPage = UserPage(bytes: seq<Byte>, writable: bool)

  /** User memory by page number. */
  type Memory = map<nat, UserPage>

  /** What can be had while a page is loaded: a frame for it, a buffer to read part of a sector,
      and a page table. */
  datatype Room = Room(frame: bool, buffer: bool, table: bool)

  predicate Within(p: nat, start: nat, n: nat) { start <= p < start + n }

  /** What is to be in memory: pages from `start` on with bytes of the file at `ofs`. */
  datatype Segment = Segment(file: seq<Byte>, ofs: nat, readBytes: nat, start: nat, writable: bool)

  /** The first `n` pages of the segment are in memory, and no other page has changed. */
  ghost predicate Loaded(mem: Memory, mem': Memory, s: Segment, n: nat) {
    && (forall p: nat :: p in mem' <==> p in mem || Within(p, s.start, n))
    && (forall p: nat | p in mem && !Within(p, s.start, n) :: mem'[p] == mem[p])
    && forall p: nat | Within(p, s.start, n) ::
         mem'[p] == UserPage(PageImage(s.file, s.ofs, s.readBytes, p - s.start), s.writable)
  }

  /** Whether the pages from `start` on can be installed: not in use, and memory for them. */
  ghost predicate Installable(mem: Memory, room: nat -> Room, start: nat, n: nat) {
    forall p: nat | Within(p, start, n) :: p !in mem && room(p).frame && room(p).table
  }

  /** Whether the file has the bytes, and a buffer can be had if they end inside a sector. */
  predicate Readable(s: Segment, room: nat -> Room) {
    && (s.readBytes == 0 || s.ofs + s.readBytes <= |s.file|)
    && (s.readBytes % 512 == 0 || room(s.start + s.readBytes / 4096).buffer)
  }

  /** A read that begins a sector is complete exactly if the file goes on that far and there is a
      buffer for a last part of a sector. */
  lemma ReadComplete(length: nat, r: nat, pos: nat, buffer: bool)
    requires pos % 512 == 0
    ensures IO.Transfer(length, r, pos, buffer) == r <==> (r == 0 || pos + r <= length) && (r % 512 == 0 || buffer)
  {}

  /** The counters of the page loop after `k` pages. */
  ghost predicate Counters(readBytes: nat, zeroBytes: nat, ofs: nat, k: nat, read: nat, zero: nat, pos: nat) {
    && read + zero + 4096 * k == readBytes + zeroBytes
    && read == (if 4096 * k < readBytes then readBytes - 4096 * k else 0)
    && pos == ofs + readBytes - read
  }

  /** Neither counter goes below zero, and another page is done. */
  lemma CountersStep(readBytes: nat, zeroBytes: nat, ofs: nat, k: nat, read: nat, zero: nat, pos: nat)
    requires Counters(readBytes, zeroBytes, ofs, k, read, zero, pos)
    requires (readBytes + zeroBytes) % 4096 == 0 && (read > 0 || zero > 0)
    ensures var r := if read < 4096 then read else 4096;
            4096 - r <= zero && Counters(readBytes, zeroBytes, ofs, k + 1, read - r, zero - (4096 - r), pos + r)
    ensures k < (readBytes + zeroBytes) / 4096
  {
    assert read + zero == 4096 * ((readBytes + zeroBytes) / 4096 - k);
  }

  lemma CountersDone(readBytes: nat, zeroBytes: nat, ofs: nat, k: nat, pos: nat)
    requires Counters(readBytes, zeroBytes, ofs, k, 0, 0, pos)
    ensures k == (readBytes + zeroBytes) / 4096
  {}

  /** The bytes that the loop reads for page `k`. */
  function PageRead(readBytes: nat, k: nat): nat {
    if readBytes <= 4096 * k then 0 else if readBytes < 4096 * k + 4096 then readBytes - 4096 * k else 4096
  }

  /** Whether page `k` of the segment can be loaded. */
  predicate PageGood(s: Segment, room: nat -> Room, mem: Memory, k: nat) {
    var r, p := PageRead(s.readBytes, k), s.start + k;
    && (r == 0 || s.ofs + 4096 * k + r <= |s.file|) && (r % 512 == 0 || room(p).buffer)
    && p !in mem && room(p).frame && room(p).table
  }

  ghost predicate GoodBelow(s: Segment, room: nat -> Room, mem: Memory, n: nat) {
    forall k: nat | k < n :: PageGood(s, room, mem, k)
  }

  lemma GoodSoFar(s: Segment, room: nat -> Room, mem: Memory, k: nat, n: nat)
    requires GoodBelow(s, room, mem, k)
    ensures GoodBelow(s, room, mem, k + 1) <==> PageGood(s, room, mem, k)
    ensures k < n && !PageGood(s, room, mem, k) ==> !GoodBelow(s, room, mem, n)
  {}

  /** All pages can be loaded if the file is long enough, a buffer can be had where the bytes end,
      and all pages can be installed. */
  lemma AllGood(s: Segment, room: nat -> Room, mem: Memory, n: nat)
    requires s.readBytes <= 4096 * n
    ensures GoodBelow(s, room, mem, n) <==>
            Readable(s, room) && Installable(mem, room, s.start, n)
  {
    if GoodBelow(s, room, mem, n) {
      forall p: nat | Within(p, s.start, n) ensures p !in mem && room(p).frame && room(p).table {
        assert PageGood(s, room, mem, p - s.start);
      }
      if s.readBytes > 0 { LastRead(s, room, mem, n); }
    }
    if Readable(s, room) && Installable(mem, room, s.start, n) {
      forall k: nat | k < n ensures PageGood(s, room, mem, k) {
        assert Within(s.start + k, s.start, n);
        PageParts(s.readBytes, k);
      }
    }
  }

  lemma Shift(q: nat, x: nat)
    ensures (4096 * q + x) / 4096 == q + x / 4096 && (4096 * q + x) % 512 == x % 512
  {
    assert x == 4096 * (x / 4096) + x % 4096;
    assert (4096 * q + x) % 512 == x % 512 by {
      var y := x / 512;
      assert x == 512 * y + x % 512 && 4096 * q + x == 512 * (8 * q + y) + x % 512;
    }
  }

  lemma PageParts(readBytes: nat, k: nat)
    ensures PageRead(readBytes, k) > 0 ==> 4096 * k + PageRead(readBytes, k) <= readBytes
    ensures PageRead(readBytes, k) % 512 != 0 ==> readBytes % 512 != 0 && readBytes / 4096 == k
  {
    if 4096 * k < readBytes { Shift(k, readBytes - 4096 * k); }
  }

  /** The last page that is read for. */
  lemma LastPage(readBytes: nat) returns (k: nat)
    requires readBytes > 0
    ensures 4096 * k < readBytes && 4096 * k + PageRead(readBytes, k) == readBytes
    ensures readBytes % 512 != 0 ==> PageRead(readBytes, k) % 512 != 0 && readBytes / 4096 == k
  {
    k := (readBytes - 1) / 4096;
    Shift(k, readBytes - 4096 * k);
  }

  lemma LastRead(s: Segment, room: nat -> Room, mem: Memory, n: nat)
    requires 0 < s.readBytes <= 4096 * n && forall k: nat | k < n :: PageGood(s, room, mem, k)
    ensures Readable(s, room)
  {
    var k := LastPage(s.readBytes);
    assert PageGood(s, room, mem, k);
  }

  /** A page with `r` bytes read from the file, and zeros behind them. */
  function PageOf(file: seq<Byte>, pos: nat, r: nat): seq<Byte>
    requires r <= 4096 && (r == 0 || pos + r <= |file|)
  {
    (if r > 0 then file[pos..pos + r] else []) + seq(4096 - r, _ => 0)
  }

  /** A page made of what is read next and zeros is the page of the image. */
  lemma PageFilled(s: Segment, k: nat, pos: nat)
    requires var r := PageRead(s.readBytes, k); r == 0 || (pos == s.ofs + 4096 * k && pos + r <= |s.file|)
    ensures PageOf(s.file, pos, PageRead(s.readBytes, k)) == PageImage(s.file, s.ofs, s.readBytes, k)
  {}

  lemma LoadedStep(mem: Memory, mem': Memory, s: Segment, k: nat)
    requires Loaded(mem, mem', s, k)
    ensures Loaded(mem, mem'[s.start + k := UserPage(PageImage(s.file, s.ofs, s.readBytes, k), s.writable)], s, k + 1)
  {}

  /** `load_segment`.  It loads pages up to the first one that cannot be had, read or installed,
      and keeps a frame for each of these and for no other. */
  method LoadSegment(s: Segment, zeroBytes: nat, mem: Memory, room: nat -> Room)
    returns (ok: bool, mem': Memory, frames: nat)
    requires (s.readBytes + zeroBytes) % 4096 == 0 && s.ofs % 4096 == 0
    ensures var n := (s.readBytes + zeroBytes) / 4096;
            && ok == (Readable(s, room) && Installable(mem, room, s.start, n))
            && (ok <==> frames == n) && frames <= n && Loaded(mem, mem', s, frames)
  {
    ghost var n := (s.readBytes + zeroBytes) / 4096;
    AllGood(s, room, mem, n);
    var read: nat, zero: nat, page: nat, pos: nat := s.readBytes, zeroBytes, s.start, s.ofs;
    frames := 0;
    mem' := mem;
    while read > 0 || zero > 0
      invariant Counters(s.readBytes, zeroBytes, s.ofs, frames, read, zero, pos) && page == s.start + frames
      invariant Loaded(mem, mem', s, frames) && GoodBelow(s, room, mem, frames)
      decreases read + zero
    {
      CountersStep(s.readBytes, zeroBytes, s.ofs, frames, read, zero, pos);
      var pageRead := if read < 4096 then read else 4096;
      GoodSoFar(s, room, mem, frames, n);
      var good, kept;
      good, mem', kept := LoadPage(s, pos, pageRead, page, mem', room, frames, mem);
      if !good {
        return false, mem', frames + kept;
      }
      read := read - pageRead;
      zero := zero - (4096 - pageRead);
      page := page + 1;
      pos := pos + pageRead;
      frames := frames + kept;
    }
    CountersDone(s.readBytes, zeroBytes, s.ofs, frames, pos);
    ok := true;
  }

  lemma AtSector(ofs: nat, k: nat)
    requires ofs % 4096 == 0
    ensures (ofs + 4096 * k) % 512 == 0
  {
    var q := ofs / 4096;
    assert ofs + 4096 * k == 512 * (8 * (q + k));
  }

  lemma PageReads(s: Segment, k: nat, pos: nat, buffer: bool)
    requires s.ofs % 4096 == 0 && pos == s.ofs + 4096 * k
    ensures var r := PageRead(s.readBytes, k);
            IO.Transfer(|s.file|, r, pos, buffer) == r <==>
            (r == 0 || s.ofs + 4096 * k + r <= |s.file|) && (r % 512 == 0 || buffer)
  {
    assert pos % 512 == 0 by { AtSector(s.ofs, k); }
    ReadComplete(|s.file|, PageRead(s.readBytes, k), pos, buffer);
  }

  /** The body of the page loop: get, fill and install one page, or give its frame back. */
  method LoadPage(s: Segment, pos: nat, pageRead: nat, page: nat, mem: Memory, room: nat -> Room,
                  ghost k: nat, ghost mem0: Memory)
    returns (good: bool, mem': Memory, frames: nat)
    requires s.ofs % 4096 == 0 && pageRead == PageRead(s.readBytes, k) && (pageRead > 0 ==> pos == s.ofs + 4096 * k)
    requires page == s.start + k && Loaded(mem0, mem, s, k)
    ensures good == PageGood(s, room, mem0, k) && frames == (if good then 1 else 0)
    ensures Loaded(mem0, mem', s, k + frames)
  {
    frames := 0;
    mem' := mem;
    if !room(page).frame {
      return false, mem', frames;
    }
    frames := frames + 1;
    if pageRead > 0 { PageReads(s, k, pos, room(page).buffer); }
    if IO.Transfer(|s.file|, pageRead, pos, room(page).buffer) != pageRead {
      frames := frames - 1;
      return false, mem', frames;
    }
    var kpage := PageOf(s.file, pos, pageRead);
    if page in mem' || !room(page).table {
      frames := frames - 1;
      return false, mem', frames;
    }
    PageFilled(s, k, pos);
    LoadedStep(mem0, mem, s, k);
    mem' := mem'[page := UserPage(kpage, s.writable)];
    return true, mem', frames;
  }

  // ---------------------------------------------------------------- PT_LOAD

  /** Byte `a` of user memory is mapped, has value `b` and can be written or not. */
  ghost predicate Holds(mem: Memory, a: nat, b: Byte, writable: bool) {
    a / 4096 in mem && mem[a / 4096].writable == writable
    && |mem[a / 4096].bytes| == 4096 && mem[a / 4096].bytes[a % 4096] == b
  }

  function FirstPage(ph: Phdr): nat { ph.vaddr / 4096 }

  function PageCount(ph: Phdr): nat { (ph.vaddr % 4096 + ph.memsz + 4095) / 4096 }

  /** The pages of a segment are those that one of its bytes is in. */
  lemma PagesTouched(ph: Phdr, p: nat)
    requires ph.memsz > 0
    ensures Within(p, FirstPage(ph), PageCount(ph)) <==>
            exists a: nat :: ph.vaddr <= a < ph.vaddr + ph.memsz && a / 4096 == p
  {
    var last := ph.vaddr + ph.memsz - 1;
    assert FirstPage(ph) + PageCount(ph) == last / 4096 + 1 by { LastTouched(ph); }
    if Within(p, FirstPage(ph), PageCount(ph)) {
      var a := if p == FirstPage(ph) then ph.vaddr else 4096 * p;
      assert ph.vaddr <= a <= last && a / 4096 == p;
    }
  }

  lemma LastTouched(ph: Phdr)
    requires ph.memsz > 0
    ensures FirstPage(ph) + PageCount(ph) == (ph.vaddr + ph.memsz - 1) / 4096 + 1
  {
    Shift(FirstPage(ph), ph.vaddr % 4096 + ph.memsz - 1);
    assert 4096 * FirstPage(ph) + (ph.vaddr % 4096 + ph.memsz - 1) == ph.vaddr + ph.memsz - 1;
  }

  /** What the header says is at address `a`: a byte of the file, or zero. */
  function SegmentByte(ph: Phdr, file: seq<Byte>, a: nat): Byte
    requires ph.vaddr <= a
  {
    var x := a - ph.vaddr;
    if x < ph.filesz && ph.offset + x < |file| then file[ph.offset + x] else 0
  }

  /** The amounts that `load` asks for add up to whole pages, and the zeros are not negative.  For a
      segment that ends below the user limit no 32-bit sum on the way wraps around. */
  lemma Amounts(ph: Phdr)
    requires ph.filesz <= ph.memsz && ph.vaddr + ph.memsz < PHYS_BASE
    ensures var readBytes := if ph.filesz > 0 then ph.vaddr % 4096 + ph.filesz else 0;
            var total := RoundUp(ph.vaddr % 4096 + ph.memsz);
            && A.Wrap32(ph.vaddr % 4096 + ph.filesz) == ph.vaddr % 4096 + ph.filesz
            && A.Wrap32(ph.vaddr % 4096 + ph.memsz) == ph.vaddr % 4096 + ph.memsz
            && RoundUp32(ph.vaddr % 4096 + ph.memsz) == total
            && readBytes <= total < 0x1_0000_0000 && A.Wrap32(total - readBytes) == total - readBytes
            && total % 4096 == 0 && total / 4096 == PageCount(ph)
    ensures RoundDown(ph.vaddr) % 4096 == 0 && RoundDown(ph.vaddr) / 4096 == FirstPage(ph)
    ensures RoundDown(ph.offset) % 4096 == 0
  {
    var o := ph.vaddr % 4096;
    assert o + ph.filesz <= o + ph.memsz < PHYS_BASE;
    RoundUpFits(o + ph.memsz);
  }

  /** Below the user limit rounding up to a page does not wrap around. */
  lemma RoundUpFits(x: nat)
    requires x < PHYS_BASE
    ensures RoundUp32(x) == RoundUp(x) && x <= RoundUp(x) < 0x1_0000_0000
    ensures RoundUp(x) % 4096 == 0 && RoundUp(x) / 4096 == (x + 4095) / 4096
  {}

  function SegmentOf(ph: Phdr, file: seq<Byte>): Segment {
    Segment(file, RoundDown(ph.offset), if ph.filesz > 0 then ph.vaddr % 4096 + ph.filesz else 0,
            FirstPage(ph), Flag(ph.flags, PF_W))
  }

  /** Whether the file bytes of the segment can be read. */
  predicate FileReadable(ph: Phdr, file: seq<Byte>, room: nat -> Room) {
    ph.filesz == 0 ||
      (ph.offset + ph.filesz <= |file|
       && ((ph.vaddr + ph.filesz) % 512 == 0 || room((ph.vaddr + ph.filesz) / 4096).buffer))
  }

  /** The PT_LOAD case of `load`.  A segment that loads is in memory as its header says: the
      file bytes, then zeros, on pages that can be written if it asks for that; it loads exactly
      when it is valid, the file can be read, and its pages can be installed.  As many frames are
      kept as pages were installed. */
  method LoadPtLoad(ph: Phdr, file: seq<Byte>, mem: Memory, room: nat -> Room)
    returns (ok: bool, mem': Memory, frames: nat)
    ensures ok == (Valid(ph, |file|) && FileReadable(ph, file, room)
                   && Installable(mem, room, FirstPage(ph), PageCount(ph)))
    ensures ok ==> forall a: nat {:trigger SegmentByte(ph, file, a)} | ph.vaddr <= a < ph.vaddr + ph.memsz ::
                     Holds(mem', a, SegmentByte(ph, file, a), Flag(ph.flags, PF_W))
    ensures ok ==> forall p: nat | p in mem :: p in mem' && mem'[p] == mem[p]
    ensures (ok ==> frames == PageCount(ph)) && Loaded(mem, mem', SegmentOf(ph, file), frames)
  {
    ValidateExact(ph, |file|);
    if !Validate(ph, |file|) {
      return false, mem, 0;
    }
    ok, mem', frames := LoadValid(ph, file, mem, room);
    FileEnough(ph, file, room);
    if ok {
      Installed(ph, file, mem, mem', room);
    }
  }

  /** The amounts of a valid segment, and its pages. */
  method LoadValid(ph: Phdr, file: seq<Byte>, mem: Memory, room: nat -> Room)
    returns (ok: bool, mem': Memory, frames: nat)
    requires ph.filesz <= ph.memsz && ph.vaddr + ph.memsz < PHYS_BASE
    ensures var s := SegmentOf(ph, file);
            && ok == (Readable(s, room) && Installable(mem, room, s.start, PageCount(ph)))
            && (ok ==> frames == PageCount(ph)) && Loaded(mem, mem', s, frames)
  {
    OffsetBits(ph.vaddr);
    Amounts(ph);
    var pageOffset := PgOfs(ph.vaddr);
    var readBytes := 0;
    if ph.filesz > 0 {
      readBytes := A.Wrap32(pageOffset + ph.filesz);
    }
    var zeroBytes := A.Wrap32(RoundUp32(A.Wrap32(pageOffset + ph.memsz)) - readBytes);
    var s := Segment(file, RoundDown(ph.offset), readBytes, RoundDown(ph.vaddr) / 4096, Flag(ph.flags, PF_W));
    assert s == SegmentOf(ph, file);
    ok, mem', frames := LoadSegment(s, zeroBytes, mem, room);
  }

  lemma FileEnough(ph: Phdr, file: seq<Byte>, room: nat -> Room)
    requires ph.offset % 4096 == ph.vaddr % 4096
    ensures Readable(SegmentOf(ph, file), room) <==> FileReadable(ph, file, room)
  {
    if ph.filesz > 0 {
      Shift(ph.vaddr / 4096, ph.vaddr % 4096 + ph.filesz);
      assert 4096 * (ph.vaddr / 4096) + (ph.vaddr % 4096 + ph.filesz) == ph.vaddr + ph.filesz;
    }
  }

  lemma Installed(ph: Phdr, file: seq<Byte>, mem: Memory, mem': Memory, room: nat -> Room)
    requires ph.filesz <= ph.memsz && ph.offset % 4096 == ph.vaddr % 4096
    requires Installable(mem, room, FirstPage(ph), PageCount(ph))
    requires Loaded(mem, mem', SegmentOf(ph, file), PageCount(ph))
    ensures forall a: nat {:trigger SegmentByte(ph, file, a)} | ph.vaddr <= a < ph.vaddr + ph.memsz ::
              Holds(mem', a, SegmentByte(ph, file, a), Flag(ph.flags, PF_W))
    ensures forall p: nat | p in mem :: p in mem' && mem'[p] == mem[p]
  {
    forall a: nat | ph.vaddr <= a < ph.vaddr + ph.memsz
      ensures Holds(mem', a, SegmentByte(ph, file, a), Flag(ph.flags, PF_W))
    {
      ByteInPage(ph, a);
      ByteOfImage(ph, file, SegmentOf(ph, file).readBytes, a);
    }
    assert forall p: nat | p in mem :: !Within(p, FirstPage(ph), PageCount(ph));
  }

  /** Where address `a` lies among the loaded pages. */
  lemma ByteInPage(ph: Phdr, a: nat)
    requires ph.vaddr <= a < ph.vaddr + ph.memsz
    ensures Within(a / 4096, FirstPage(ph), PageCount(ph))
    ensures 4096 * (a / 4096 - FirstPage(ph)) + a % 4096 == ph.vaddr % 4096 + (a - ph.vaddr)
  {}

  lemma ByteOfImage(ph: Phdr, file: seq<Byte>, readBytes: nat, a: nat)
    requires ph.vaddr <= a && ph.offset % 4096 == ph.vaddr % 4096
    requires readBytes == if ph.filesz > 0 then ph.vaddr % 4096 + ph.filesz else 0
    ensures ImageByte(file, RoundDown(ph.offset), readBytes, ph.vaddr % 4096 + (a - ph.vaddr)) ==
              SegmentByte(ph, file, a)
  {}
}
