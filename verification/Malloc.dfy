/** `malloc`, `free` and `realloc` (src/threads/malloc.c) over every run. */
module Malloc {
  import opened Common
  import opened Bitmap
  import opened Arenas
  import A = Arithmetic

  /** The first descriptor from `d` on whose blocks are big enough. */
  function DescFor(size: nat, d: nat): (r: nat)
    requires d <= DESC_CNT
    ensures d <= r <= DESC_CNT
    ensures r < DESC_CNT ==> size <= BlockSize(r)
    ensures forall e: nat | d <= e < r :: BlockSize(e) < size
    decreases DESC_CNT - d
  {
    if d == DESC_CNT || BlockSize(d) >= size then d else DescFor(size, d + 1)
  }

  /** Pages for a big block and its header, in 32-bit arithmetic. */
  function PagesFor(size: A.Word32): nat {
    A.Wrap32(A.Wrap32(size + HEADER) + PGSIZE - 1) / PGSIZE
  }

  /** The promise of at least `size` bytes fails for the eleven largest requests, whose size plus
      header wraps around to a single page, and for no others. */
  lemma BigRequest(size: A.Word32)
    ensures PagesFor(size) == 0 || size <= PGSIZE * PagesFor(size) - HEADER <==> size <= MAX_REQUEST
  {
    assert size > MAX_REQUEST ==> PagesFor(size) == 1;
  }

  /** `malloc (0xffffffff)` asks for one page, which has room for 4084 bytes. */
  lemma BigRequestFails()
    ensures PagesFor(0xffff_ffff) == 1 && PGSIZE * PagesFor(0xffff_ffff) - HEADER == 4084
  {}

  /** `malloc` */
  function Alloc(h: Heap, size: A.Word32): (Heap, Option<Ptr>)
    requires |h.free| == DESC_CNT
  {
    var d := DescFor(size, 0);
    if size == 0 then (h, None)
    else if d == DESC_CNT then
      match GetPages(h.used, PagesFor(size))
      case None => (h, None)
      case Some(p) => (AddBig(h, p, PagesFor(size), size), Some(Ptr(p, HEADER)))
    else if h.free[d] == [] then
      match GetPages(h.used, 1)
      case None => (h, None)
      case Some(p) => (Take(AddArena(h, p, d), d, size), Some(BlockAt(p, d, 0)))
    else (Take(h, d, size), Some(h.free[d][0]))
  }

  /** `free` of a block that a caller holds. */
  function Release(h: Heap, b: Ptr): Heap {
    if b.page !in h.arenas then h else
    match h.arenas[b.page]
    case Small(d, c) =>
      if d >= DESC_CNT || d >= |h.free| || b.page >= |h.used| then h
      else if c + 1 >= PerArena(d) then DropArena(Put(h, b, d), b.page, d)
      else Put(h, b, d)
    case Big(n) => if b.page + n <= |h.used| then DropBig(h, b.page, n) else h
  }

  // ---------------------------------------------------------------- one request

  lemma StillBusy(h: Heap, h': Heap, p: nat)
    requires Inv(h) && Elsewhere(h, h', p) && (p in h'.arenas ==> Busy(h', p))
    ensures forall q {:trigger Busy(h', q)} | q in h'.arenas :: Busy(h', q)
  {
    forall q | q in h'.arenas ensures Busy(h', q) {
      if q != p {
        assert q in h'.arenas.Keys - {p};
        assert SamePageState(h, h', q) && Busy(h, q);
      }
    }
  }

  /** A request either fails and changes nothing, or hands out a block that nobody held. */
  lemma AllocKeeps(h: Heap, size: A.Word32)
    requires Inv(h)
    ensures var (h', r) := Alloc(h, size);
            && Inv(h')
            && (r.None? ==> h' == h)
            && (r.Some? ==> r.value !in h.live && h'.live == h.live[r.value := size])
  {
    var d := DescFor(size, 0);
    if size > 0 {
      if d == DESC_CNT { AllocBig(h, size); }
      else if h.free[d] == [] { AllocFresh(h, d, size); }
      else { AllocListed(h, d, size); }
    }
  }

  /** `d` is the class with the smallest blocks that are big enough. */
  predicate LeastClass(size: nat, d: nat) {
    d < DESC_CNT && size <= BlockSize(d) && forall e | 0 <= e < d :: BlockSize(e) < size
  }

  /** The requests that have such a class are those of up to 1024 bytes. */
  lemma ClassExists(size: nat)
    ensures (exists d: nat :: LeastClass(size, d)) <==> size <= 1024
  {
    SizesDouble();
    var d := DescFor(size, 0);
    if d < DESC_CNT { assert LeastClass(size, d); }
  }

  /** A request of up to 1024 bytes gets a block of the least class that is big enough, and fails
      exactly if no block of that class is free and there is no page for new ones.  A page is taken
      exactly if no block is free, and it is the lowest one. */
  lemma SmallExact(h: Heap, size: A.Word32, d: nat)
    requires Inv(h) && 0 < size && LeastClass(size, d)
    ensures var (h', r) := Alloc(h, size);
            && (r.None? <==> h.free[d] == [] && forall p | 0 <= p < |h.used| :: h.used[p])
            && (r.Some? ==> r.value.page in h'.arenas && Capacity(h', r.value) == BlockSize(d)
                            && h'.arenas[r.value.page].Small? && h'.arenas[r.value.page].desc == d)
            && (h.free[d] != [] ==> h'.used == h.used && r == Some(h.free[d][0]))
            && (h.free[d] == [] && r.Some? ==> LowestTaken(h.used, h'.used, r.value.page, 1))
  {
    var (h', r) := Alloc(h, size);
    assert DescFor(size, 0) == d;
    if h.free[d] == [] {
      OnePageFree(h.used, GetPages(h.used, 1));
      if r.Some? { assert !h.used[GetPages(h.used, 1).value]; }
    } else {
      assert ListInv(h, d);
    }
  }

  /** A bigger request gets as many pages as it asks for, the lowest ones that are in a row, and
      fails exactly if it asks for none or there are not as many in a row. */
  lemma BigExact(h: Heap, size: A.Word32)
    requires Inv(h) && size > 1024
    ensures var (h', r) := Alloc(h, size); var n := PagesFor(size);
            && (r.None? <==> n == 0 || forall p: nat | p + n <= |h.used| :: !AllAre(h.used, p, n, false))
            && (r.Some? ==> r.value.page in h'.arenas && Capacity(h', r.value) == PGSIZE * n - HEADER
                            && LowestTaken(h.used, h'.used, r.value.page, n))
  {
    assert DescFor(size, 0) == DESC_CNT;
    if PagesFor(size) > 0 && GetPages(h.used, PagesFor(size)).Some? {
      var k := GetPages(h.used, PagesFor(size)).value;
      assert AllAre(h.used, k, PagesFor(size), false);
    }
  }

  /** The pages that a request asks for: the least number that holds it and the header, none if
      rounding up wraps around, and one if adding the header does. */
  lemma PagesExact(size: A.Word32)
    ensures var n, total := PagesFor(size), size + HEADER;
            if total <= 0x1_0000_0000 - PGSIZE then PGSIZE * (n - 1) < total <= PGSIZE * n
            else if total <= 0x1_0000_0000 then n == 0
            else n == 1
  {}

  /** Exactly `n` pages from `p` on have been taken, all free before, and no lower ones would do. */
  ghost predicate LowestTaken(used: seq<bool>, used': seq<bool>, p: nat, n: nat) {
    && p + n <= |used| == |used'| && AllAre(used, p, n, false)
    && (forall q: nat | q < p && q + n <= |used| :: !AllAre(used, q, n, false))
    && forall i | 0 <= i < |used| :: used'[i] == (used[i] || p <= i < p + n)
  }

  lemma OnePageFree(used: seq<bool>, r: Option<nat>)
    requires FirstFit(used, 0, 1, false, r)
    ensures r.None? <==> forall p | 0 <= p < |used| :: used[p]
  {
    if r.None? {
      forall p | 0 <= p < |used| ensures used[p] { assert !AllAre(used, p, 1, false); }
    } else {
      assert !used[r.value];
    }
  }

  lemma AllocBig(h: Heap, size: A.Word32)
    requires Inv(h) && 0 < size
    ensures var n := PagesFor(size);
            match GetPages(h.used, n)
            case None => true
            case Some(p) => Inv(AddBig(h, p, n, size)) && Ptr(p, HEADER) !in h.live
  {
    var n := PagesFor(size);
    BigRequest(size);
    match GetPages(h.used, n)
    case None =>
    case Some(p) =>
      AddBigKeeps(h, p, n, size);
      var h' := AddBig(h, p, n, size);
      assert Ptr(p, HEADER) in LiveIn(h', p);
      StillBusy(h, h', p);
  }

  lemma AllocFresh(h: Heap, d: nat, size: nat)
    requires Inv(h) && d < DESC_CNT && h.free[d] == [] && 1 <= size <= BlockSize(d)
    ensures match GetPages(h.used, 1)
            case None => true
            case Some(p) =>
              var h' := Take(AddArena(h, p, d), d, size); var b := BlockAt(p, d, 0);
              Inv(h') && b !in h.live && h'.live == h.live[b := size]
  {
    match GetPages(h.used, 1)
    case None =>
    case Some(p) =>
      assert !h.used[p];
      AddArenaKeeps(h, p, d);
      var h1 := AddArena(h, p, d);
      assert h1.free[d][0] == BlockAt(p, d, 0);
      TakeKeeps(h1, d, size);
      Compose(h, h1, Take(h1, d, size), p);
      StillBusy(h, Take(h1, d, size), p);
  }

  lemma AllocListed(h: Heap, d: nat, size: nat)
    requires Inv(h) && d < DESC_CNT && h.free[d] != [] && 1 <= size <= BlockSize(d)
    ensures var h', b := Take(h, d, size), h.free[d][0];
            Inv(h') && b !in h.live && h'.live == h.live[b := size]
  {
    TakeKeeps(h, d, size);
    StillBusy(h, Take(h, d, size), h.free[d][0].page);
  }

  lemma Compose(h: Heap, h1: Heap, h2: Heap, p: nat)
    requires Elsewhere(h, h1, p) && Elsewhere(h1, h2, p)
    ensures Elsewhere(h, h2, p)
  {
    forall q | q in h.arenas && q != p ensures SamePageState(h, h2, q) {
      assert SamePageState(h, h1, q) && SamePageState(h1, h2, q);
    }
  }

  /** Freeing takes the block from its caller and from no one else; the arena gives its pages
      back exactly when that was its last live block. */
  lemma ReleaseKeeps(h: Heap, b: Ptr)
    requires Inv(h) && b in h.live
    ensures b.page in h.arenas
    ensures var h' := Release(h, b);
            && Inv(h') && h'.live == h.live - {b}
            && (b.page !in h'.arenas <==> LiveIn(h, b.page) == {b})
            && (b.page in h'.arenas ==> h'.used == h.used)
            && (b.page !in h'.arenas ==> b.page + Span(h.arenas[b.page]) <= |h.used|
                                         && h'.used == Filled(h.used, b.page, Span(h.arenas[b.page]), false))
  {
    assert ArenaInv(h, b.page) && AllAre(h.used, b.page, Span(h.arenas[b.page]), true);
    if h.arenas[b.page].Small? { ReleaseSmall(h, b); } else { ReleaseBig(h, b); }
  }

  lemma ReleaseBig(h: Heap, b: Ptr)
    requires Inv(h) && b in h.live && h.arenas[b.page].Big?
    ensures var n := h.arenas[b.page].pages;
            && b.page + n <= |h.used|
            && Inv(DropBig(h, b.page, n)) && DropBig(h, b.page, n).live == h.live - {b} && LiveIn(h, b.page) == {b}
  {
    var p := b.page;
    assert ArenaInv(h, p) && b in LiveIn(h, p);
    DropBigKeeps(h, p);
    StillBusy(h, DropBig(h, p, h.arenas[p].pages), p);
  }

  lemma ReleaseSmall(h: Heap, b: Ptr)
    requires Inv(h) && b in h.live && h.arenas[b.page].Small?
    ensures h.arenas[b.page].desc < DESC_CNT && b.page < |h.used|
    ensures var h' := Release(h, b);
            && Inv(h') && h'.live == h.live - {b}
            && (b.page !in h'.arenas <==> LiveIn(h, b.page) == {b})
            && h'.used == if b.page in h'.arenas then h.used else Filled(h.used, b.page, 1, false)
  {
    var p, d := b.page, h.arenas[b.page].desc;
    assert ArenaInv(h, p) && AllAre(h.used, p, 1, true) && b in LiveIn(h, p);
    PutKeeps(h, b);
    var h1 := Put(h, b, d);
    IdleIffFull(h1, p);
    assert LiveIn(h1, p) == {} <==> LiveIn(h, p) == {b};
    if LiveIn(h1, p) == {} {
      DropArenaKeeps(h1, p);
      Compose(h, h1, DropArena(h1, p, d), p);
      StillBusy(h, DropArena(h1, p, d), p);
    } else {
      StillBusy(h, h1, p);
    }
  }

  // ---------------------------------------------------------------- realloc and runs

  function Start(b: Ptr): int { PGSIZE * b.page + b.ofs }

  /** The bytes that the copy of `realloc` writes, from the start of the new block on. */
  predicate Writes(c: Ptr, n: int, x: int) {
    Start(c) <= x < Start(c) + n
  }

  /** The size of the request wraps around, so that the new block has one page, the old block is
      bigger than that, and there is a page. */
  predicate Overruns(h: Heap, prev: Option<Ptr>, size: A.Word32) {
    && size > MAX_REQUEST && prev.Some? && prev.value.page in h.arenas
    && Capacity(h, prev.value) > PGSIZE - HEADER && GetPages(h.used, 1).Some?
  }

  /** `realloc`, where its copy stays inside the new block. */
  function Resize(h: Heap, prev: Option<Ptr>, size: A.Word32): (Heap, Option<Ptr>)
    requires |h.free| == DESC_CNT && !Overruns(h, prev, size)
  {
    if size == 0 then (if prev.Some? then Release(h, prev.value) else h, None)
    else
      var (h1, r) := Alloc(h, size);
      (if prev.Some? && r.Some? then Release(h1, prev.value) else h1, r)
  }

  /** A resized block takes the place of the old one; if it cannot be had the old one stays.
      Nothing is said of a copy that overruns the new block, since it destroys what is there. */
  lemma ResizeKeeps(h: Heap, prev: Option<Ptr>, size: A.Word32)
    requires Inv(h) && (prev.Some? ==> prev.value in h.live)
    ensures Overruns(h, prev, size) ||
            var (h', r) := Resize(h, prev, size);
            && Inv(h')
            && (size > 0 ==> r == Alloc(h, size).1) && (size > 0 && r.None? ==> h' == h)
            && (size == 0 ==> r.None? && h'.live.Keys == h.live.Keys - Held(prev))
            && (r.Some? ==> r.value !in h.live && h'.live == h.live[r.value := size] - Held(prev))
  {
    if size == 0 {
      if prev.Some? { ReleaseKeeps(h, prev.value); }
    } else {
      AllocKeeps(h, size);
      var (h1, r) := Alloc(h, size);
      if prev.Some? && r.Some? { ReleaseKeeps(h1, prev.value); }
    }
  }

  ghost function Held(b: Option<Ptr>): set<Ptr> { if b.Some? then {b.value} else {} }

  /** What is copied when a block `c` has been got for `b`: the old block is still whole, and the
      smaller of the two sizes is written.  All of it goes to the room of the new block, where no
      header, free block or other caller's block is, exactly if the request did not wrap around or
      the old block has at most the 4084 bytes that a wrapped request gets. */
  lemma CopyExact(h: Heap, b: Ptr, size: A.Word32)
    requires Inv(h) && b in h.live && Alloc(h, size).1.Some?
    ensures var (h1, r) := Alloc(h, size); var c := r.value;
            && Inv(h1) && b.page in h.arenas && b.page in h1.arenas && c in h1.live && c.page in h1.arenas
            && Capacity(h1, b) == Capacity(h, b)
            && var n := Min(size, Capacity(h, b));
               && ((forall x: int | Writes(c, n, x) :: Holds(h1, c, x)) <==>
                   size <= MAX_REQUEST || Capacity(h, b) <= PGSIZE - HEADER)
               && (Overruns(h, Some(b), size) <==> exists x: int :: Writes(c, n, x) && !Holds(h1, c, x))
               && forall x: int | Writes(c, n, x) && Holds(h1, c, x) :: Private(h1, c, x)
  {
    AllocKeeps(h, size);
    var (h1, r) := Alloc(h, size);
    var c, n := r.value, Min(size, Capacity(h, b));
    LiveInside(h1, c);
    SameCapacity(h, size, b);
    if size > MAX_REQUEST { WrappedRoom(h, size); }
    WritesInside(h1, c, n);
    forall x: int | Writes(c, n, x) && Holds(h1, c, x) ensures Private(h1, c, x) { RoomPrivate(h1, c, x); }
  }

  /** `memcpy` of `n` bytes from `b` to `c`. */
  function Copied(bytes: int -> Byte, b: Ptr, c: Ptr, n: int): int -> Byte {
    x => if Writes(c, n, x) then bytes(x - Start(c) + Start(b)) else bytes(x)
  }

  /** Source and destination do not overlap, the new block begins with the bytes of the old one,
      and what changes is in the new block and of no use to anybody else. */
  ghost predicate CleanCopy(h: Heap, b: Ptr, c: Ptr, n: int, bytes: int -> Byte) {
    var bytes' := Copied(bytes, b, c, n);
    && Inv(h) && c in h.live
    && (forall x: int | Writes(b, n, x) :: !Writes(c, n, x) && bytes'(x - Start(b) + Start(c)) == bytes(x))
    && (forall x: int | bytes'(x) != bytes(x) :: Holds(h, c, x) && Private(h, c, x))
  }

  /** What `realloc` promises: the contents of the block, as far as they fit, are kept. */
  lemma CopyKeeps(h: Heap, b: Ptr, size: A.Word32, bytes: int -> Byte)
    requires Inv(h) && b in h.live && Alloc(h, size).1.Some? && !Overruns(h, Some(b), size)
    ensures b.page in h.arenas
    ensures var (h1, r) := Alloc(h, size); CleanCopy(h1, b, r.value, Min(size, Capacity(h, b)), bytes)
  {
    CopyInside(h, b, size);
    var (h1, r) := Alloc(h, size);
    CopyPrivate(h1, b, r.value, Min(size, Capacity(h, b)), bytes);
  }

  lemma CopyInside(h: Heap, b: Ptr, size: A.Word32)
    requires Inv(h) && b in h.live && Alloc(h, size).1.Some? && !Overruns(h, Some(b), size)
    ensures b.page in h.arenas
    ensures var (h1, r) := Alloc(h, size); var c, n := r.value, Min(size, Capacity(h, b));
            && Inv(h1) && b in h1.live && c in h1.live && b != c && n <= Capacity(h1, b)
            && forall x: int | Writes(c, n, x) :: Holds(h1, c, x) && Private(h1, c, x)
  {
    CopyExact(h, b, size);
    AllocKeeps(h, size);
  }

  lemma CopyPrivate(h: Heap, b: Ptr, c: Ptr, n: int, bytes: int -> Byte)
    requires Inv(h) && b in h.live && c in h.live && b != c && n <= Capacity(h, b)
    requires forall x: int | Writes(c, n, x) :: Holds(h, c, x) && Private(h, c, x)
    ensures CleanCopy(h, b, c, n, bytes)
  {
    NoOverlap(h, b, c, n);
    var bytes' := Copied(bytes, b, c, n);
    forall x: int | Writes(b, n, x) ensures bytes'(x - Start(b) + Start(c)) == bytes(x) {
      MovedByte(bytes, b, c, n, x);
    }
    forall x: int | bytes'(x) != bytes(x) ensures Writes(c, n, x) {}
  }

  lemma MovedByte(bytes: int -> Byte, b: Ptr, c: Ptr, n: int, x: int)
    requires Writes(b, n, x)
    ensures Copied(bytes, b, c, n)(x - Start(b) + Start(c)) == bytes(x)
  {
    assert Writes(c, n, x - Start(b) + Start(c));
  }

  lemma NoOverlap(h: Heap, b: Ptr, c: Ptr, n: int)
    requires |h.free| == DESC_CNT && forall e | e in h.live :: e.page in h.arenas
    requires b in h.live && b != c && n <= Capacity(h, b) && forall x: int | Writes(c, n, x) :: Private(h, c, x)
    ensures forall x: int | Writes(b, n, x) :: !Writes(c, n, x)
  {
    forall x: int | Writes(b, n, x) ensures !Writes(c, n, x) { assert Holds(h, b, x); }
  }

  lemma WritesInside(h: Heap, c: Ptr, n: int)
    requires c.page in h.arenas
    ensures (forall x: int | Writes(c, n, x) :: Holds(h, c, x)) <==> n <= Capacity(h, c) || n <= 0
  {
    if n > Capacity(h, c) && n > 0 {
      var x := Start(c) + Max(0, Capacity(h, c));
      assert Writes(c, n, x) && !Holds(h, c, x);
    }
  }

  /** A request that wraps around gets one page. */
  lemma WrappedRoom(h: Heap, size: A.Word32)
    requires |h.free| == DESC_CNT && size > MAX_REQUEST
    ensures Alloc(h, size).1.Some? <==> GetPages(h.used, 1).Some?
    ensures var (h1, r) := Alloc(h, size);
            r.Some? ==> r.value.page in h1.arenas && Capacity(h1, r.value) == PGSIZE - HEADER
  {
    assert PagesFor(size) == 1;
  }

  lemma SameCapacity(h: Heap, size: A.Word32, b: Ptr)
    requires Inv(h) && b in h.live
    ensures var h1 := Alloc(h, size).0;
            b.page in h.arenas && b.page in h1.arenas && Capacity(h1, b) == Capacity(h, b)
  {
    var d := DescFor(size, 0);
    if size > 0 && d < DESC_CNT {
      if h.free[d] != [] {
        assert ListInv(h, d);
      } else if GetPages(h.used, 1).Some? {
        AddArenaKeeps(h, GetPages(h.used, 1).value, d);
      }
    } else if size > 0 && GetPages(h.used, PagesFor(size)).Some? {
      BigRequest(size);
      AddBigKeeps(h, GetPages(h.used, PagesFor(size)).value, PagesFor(size), size);
    }
  }

  function BigBlocks(used: seq<bool>, arenas: map<nat, Arena>, live: map<Ptr, nat>): Heap {
    Heap(used, arenas, seq(DESC_CNT, _ => []), live)
  }

  const FOUR_PAGES: Heap := BigBlocks([false, false, false, false], map[], map[])
  const ONE_BLOCK: Heap := BigBlocks([true, true, false, false], map[0 := Big(2)], map[Ptr(0, HEADER) := 5000])
  const TWO_BLOCKS: Heap :=
    BigBlocks([true, true, true, true], map[0 := Big(2), 2 := Big(2)],
              map[Ptr(0, HEADER) := 5000, Ptr(2, HEADER) := 5000])
  const SECOND_BLOCK: Heap := BigBlocks([false, false, true, true], map[2 := Big(2)], map[Ptr(2, HEADER) := 5000])
  const GAP: Heap :=
    BigBlocks([true, false, true, true], map[0 := Big(1), 2 := Big(2)],
              map[Ptr(0, HEADER) := 2000, Ptr(2, HEADER) := 5000])

  /** The requests lead from `h` to `h'`. */
  ghost predicate Leads(h: Heap, qs: seq<Request>, h': Heap) {
    Inv(h) && LegalRun(h, qs) && ServeAll(h, qs) == h'
  }

  ghost predicate Goes(h: Heap, q: Request, h': Heap) {
    Inv(h) && Legal(h, q) && Serve(h, q) == h'
  }

  lemma LeadsOn(h: Heap, q: Request, h1: Heap, qs: seq<Request>, h': Heap)
    requires Goes(h, q, h1) && Leads(h1, qs, h')
    ensures Leads(h, [q] + qs, h')
  {
    assert ([q] + qs)[0] == q && ([q] + qs)[1..] == qs;
  }

  /** The copy of `realloc` writes over the header of the block that it is to free afterwards. */
  ghost predicate HeaderWritten(h: Heap, b: Ptr, size: A.Word32) {
    && |h.free| == DESC_CNT && b in h.live && b.page in h.arenas && Overruns(h, Some(b), size)
    && var (h1, c) := Alloc(h, size);
       && c.Some? && b.page in h1.arenas
       && forall x: int | InHeader(b.page, x) :: Writes(c.value, Min(size, Capacity(h, b)), x)
  }

  /** In a pool of four pages, two blocks of two pages each are got, the first is given back and
      a block of one page is got in its place.  Then `realloc` of the block at page 2 to 2^32 - 1
      bytes gets page 1 and writes over the header at page 2. */
  lemma ResizeOverruns()
    ensures Leads(FOUR_PAGES, [Malloc(5000), Malloc(5000), Free(Some(Ptr(0, HEADER))), Malloc(2000)], GAP)
    ensures HeaderWritten(GAP, Ptr(2, HEADER), 0xffff_ffff)
  {
    FirstBlock();
    SecondBlock();
    FirstGone();
    GapLeft();
    LeadsAll(FOUR_PAGES, Malloc(5000), ONE_BLOCK, Malloc(5000), TWO_BLOCKS,
             Free(Some(Ptr(0, HEADER))), SECOND_BLOCK, Malloc(2000), GAP);
    GapOverruns();
  }

  lemma LeadsAll(h0: Heap, a: Request, h1: Heap, b: Request, h2: Heap, c: Request, h3: Heap, d: Request, h4: Heap)
    requires Goes(h0, a, h1) && Goes(h1, b, h2) && Goes(h2, c, h3) && Goes(h3, d, h4) && Inv(h4)
    ensures Leads(h0, [a, b, c, d], h4)
  {
    LeadsOn(h3, d, h4, [], h4);
    LeadsOn(h2, c, h3, [d] + [], h4);
    LeadsOn(h1, b, h2, [c] + ([d] + []), h4);
    LeadsOn(h0, a, h1, [b] + ([c] + ([d] + [])), h4);
    assert [a] + ([b] + ([c] + ([d] + []))) == [a, b, c, d];
  }

  lemma FirstBlock()
    ensures Goes(FOUR_PAGES, Malloc(5000), ONE_BLOCK) && Inv(ONE_BLOCK)
  {
    InitInv(FOUR_PAGES.used);
    GetBlock(FOUR_PAGES, 5000, 0, 2, ONE_BLOCK);
  }

  lemma SecondBlock()
    requires Inv(ONE_BLOCK)
    ensures Goes(ONE_BLOCK, Malloc(5000), TWO_BLOCKS) && Inv(TWO_BLOCKS)
  {
    GetBlock(ONE_BLOCK, 5000, 2, 2, TWO_BLOCKS);
  }

  lemma FirstGone()
    requires Inv(TWO_BLOCKS)
    ensures Goes(TWO_BLOCKS, Free(Some(Ptr(0, HEADER))), SECOND_BLOCK) && Inv(SECOND_BLOCK)
  {
    assert Filled(TWO_BLOCKS.used, 0, 2, false) == SECOND_BLOCK.used;
    assert TWO_BLOCKS.arenas - {0} == SECOND_BLOCK.arenas;
    assert TWO_BLOCKS.live - {Ptr(0, HEADER)} == SECOND_BLOCK.live;
    GiveBlock(TWO_BLOCKS, 0, 2, SECOND_BLOCK);
  }

  lemma GiveBlock(h: Heap, p: nat, n: nat, h': Heap)
    requires Inv(h) && Ptr(p, HEADER) in h.live && p in h.arenas && h.arenas[p] == Big(n)
    requires p + n <= |h.used| && DropBig(h, p, n) == h'
    ensures Goes(h, Free(Some(Ptr(p, HEADER))), h') && Inv(h')
  {
    ReleaseKeeps(h, Ptr(p, HEADER));
  }

  lemma GapLeft()
    requires Inv(SECOND_BLOCK)
    ensures Goes(SECOND_BLOCK, Malloc(2000), GAP) && Inv(GAP)
  {
    GetBlock(SECOND_BLOCK, 2000, 0, 1, GAP);
  }

  lemma GapOverruns()
    ensures HeaderWritten(GAP, Ptr(2, HEADER), 0xffff_ffff)
  {
    AllocAt(GAP, 0xffff_ffff, 1, 1);
  }

  lemma GetBlock(h: Heap, size: A.Word32, p: nat, n: nat, h': Heap)
    requires Inv(h) && size > 1024 && PagesFor(size) == n > 0
    requires p + n <= |h.used| && AllAre(h.used, p, n, false) && forall i | 0 <= i < p :: h.used[i]
    requires AddBig(h, p, n, size) == h'
    ensures Goes(h, Malloc(size), h') && Inv(h')
  {
    AllocAt(h, size, p, n);
    AllocKeeps(h, size);
  }

  lemma AllocAt(h: Heap, size: A.Word32, p: nat, n: nat)
    requires |h.free| == DESC_CNT && size > 1024 && PagesFor(size) == n > 0
    requires p + n <= |h.used| && AllAre(h.used, p, n, false) && forall i | 0 <= i < p :: h.used[i]
    ensures GetPages(h.used, n) == Some(p)
    ensures Alloc(h, size) == (AddBig(h, p, n, size), Some(Ptr(p, HEADER)))
  {
    forall j | 0 <= j < p ensures !AllAre(h.used, j, n, false) { assert h.used[j]; }
    AllocIs(h, size, p);
  }

  /** Where a big block is placed. */
  lemma AllocIs(h: Heap, size: A.Word32, p: nat)
    requires |h.free| == DESC_CNT && size > 1024 && PagesFor(size) > 0
    requires FirstFit(h.used, 0, PagesFor(size), false, Some(p))
    ensures GetPages(h.used, PagesFor(size)) == Some(p)
    ensures Alloc(h, size) == (AddBig(h, p, PagesFor(size), size), Some(Ptr(p, HEADER)))
  {
    FirstFitUnique(h.used, 0, PagesFor(size), false, Some(p), GetPages(h.used, PagesFor(size)));
  }

  datatype Request = Malloc(size: A.Word32) | Free(block: Option<Ptr>) | Realloc(block: Option<Ptr>, size: A.Word32)

  /** What the callers must see to: they give up only what they hold, and a block that they resize
      is not overrun by the copy. */
  predicate Legal(h: Heap, q: Request) {
    && (!q.Malloc? && q.block.Some? ==> q.block.value in h.live)
    && (q.Realloc? ==> !Overruns(h, q.block, q.size))
  }

  function Serve(h: Heap, q: Request): Heap
    requires |h.free| == DESC_CNT && Legal(h, q)
  {
    match q
    case Malloc(size) => Alloc(h, size).0
    case Free(b) => if b.Some? then Release(h, b.value) else h
    case Realloc(b, size) => Resize(h, b, size).0
  }

  lemma ServeKeeps(h: Heap, q: Request)
    requires Inv(h) && Legal(h, q)
    ensures Inv(Serve(h, q))
  {
    match q
    case Malloc(size) => AllocKeeps(h, size);
    case Free(b) => if b.Some? { ReleaseKeeps(h, b.value); }
    case Realloc(b, size) => ResizeKeeps(h, b, size);
  }

  ghost predicate LegalRun(h: Heap, qs: seq<Request>)
    requires Inv(h)
    decreases |qs|
  {
    qs == [] || (Legal(h, qs[0]) && (ServeKeeps(h, qs[0]); LegalRun(Serve(h, qs[0]), qs[1..])))
  }

  ghost function ServeAll(h: Heap, qs: seq<Request>): Heap
    requires Inv(h) && LegalRun(h, qs)
    decreases |qs|
  {
    if qs == [] then h else (ServeKeeps(h, qs[0]); ServeAll(Serve(h, qs[0]), qs[1..]))
  }

  /** Live blocks lie past their arena's header, and no byte of one is of use to anybody else; a
      block is big enough exactly if the request for it did not wrap around. */
  ghost predicate Safe(h: Heap) {
    && |h.free| == DESC_CNT
    && (forall b | b in h.live ::
          b.page in h.arenas && b.ofs >= HEADER && (h.live[b] <= Capacity(h, b) <==> h.live[b] <= MAX_REQUEST)
          && b.ofs + Capacity(h, b) <= PGSIZE * Span(h.arenas[b.page]))
    && (forall b, x: int {:trigger Holds(h, b, x)} | b in h.live && Holds(h, b, x) :: Private(h, b, x))
  }

  /** Over every run of requests. */
  lemma {:induction false} RunSafe(h: Heap, qs: seq<Request>)
    requires Inv(h) && LegalRun(h, qs)
    ensures Inv(ServeAll(h, qs)) && Safe(ServeAll(h, qs))
    decreases |qs|
  {
    if qs == [] {
      InvSafe(h);
    } else {
      ServeKeeps(h, qs[0]);
      RunSafe(Serve(h, qs[0]), qs[1..]);
    }
  }

  lemma InvSafe(h: Heap)
    requires Inv(h)
    ensures Safe(h)
  {
    forall b | b in h.live
      ensures b.page in h.arenas && b.ofs >= HEADER && (h.live[b] <= Capacity(h, b) <==> h.live[b] <= MAX_REQUEST)
              && b.ofs + Capacity(h, b) <= PGSIZE * Span(h.arenas[b.page])
    {
      LiveInside(h, b);
    }
    forall b, x: int | b in h.live && Holds(h, b, x) ensures Private(h, b, x) { RoomPrivate(h, b, x); }
  }

  /** The heap that `malloc_init` sets up over a pool. */
  lemma InitInv(used: seq<bool>)
    ensures Inv(Heap(used, map[], seq(DESC_CNT, _ => []), map[]))
  {}
}
