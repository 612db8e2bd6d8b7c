/** The state behind `malloc` (src/threads/malloc.c) and the pages it takes from the kernel
    pool (src/threads/palloc.c): descriptors, arenas and free lists, with the invariant that
    every request keeps. */
module Arenas {
  import opened Common
  import opened Bitmap
  import opened Nonlinear
  import Ownership

  /** sizeof (struct arena) */
  const HEADER: nat := 12
  const DESC_CNT: nat := 7

  /** An address in the pool: a page and an offset within it. */
  datatype Ptr = Ptr(page: nat, ofs: nat)

  datatype Arena = Small(desc: nat, freeCnt: nat) | Big(pages: nat)

  /** `live` records what the callers hold: the size they asked for, by address. */
  datatype Heap = Heap(used: seq<bool>, arenas: map<nat, Arena>, free: seq<seq<Ptr>>, live: map<Ptr, nat>)

  /** The block sizes that `malloc_init` sets up. */
  const SIZES: seq<nat> := [16, 32, 64, 128, 256, 512, 1024]

  function BlockSize(d: nat): (n: nat)
    requires d < DESC_CNT
    ensures 16 <= n <= 1024
  {
    SIZES[d]
  }

  /** How many blocks of each size fit a page behind the header. */
  const COUNTS: seq<nat> := [255, 127, 63, 31, 15, 7, 3]

  function PerArena(d: nat): (n: nat)
    requires d < DESC_CNT
    ensures n >= 3
  {
    COUNTS[d]
  }

  lemma CountsRight(d: nat)
    requires d < DESC_CNT
    ensures PerArena(d) == (PGSIZE - HEADER) / BlockSize(d)
  {}

  /** The offset of block `i`: behind the header and `i` blocks. */
  function BlockOfs(d: nat, i: nat): nat
    requires d < DESC_CNT
  {
    if i == 0 then HEADER else BlockOfs(d, i - 1) + BlockSize(d)
  }

  lemma {:induction false} BlockOfsIsProduct(d: nat, i: nat)
    requires d < DESC_CNT
    ensures BlockOfs(d, i) == HEADER + i * BlockSize(d)
  {
    if i > 0 {
      BlockOfsIsProduct(d, i - 1);
      Distribute(i - 1, 1, BlockSize(d));
    }
  }

  /** Block sizes are the powers of two from 16 on below half a page. */
  lemma SizesDouble()
    ensures BlockSize(0) == 16 && forall d | 0 <= d < DESC_CNT - 1 :: BlockSize(d + 1) == 2 * BlockSize(d)
    ensures BlockSize(DESC_CNT - 1) < PGSIZE / 2 <= 2 * BlockSize(DESC_CNT - 1)
  {}

  /** `arena_to_block` */
  function BlockAt(p: nat, d: nat, i: nat): Ptr
    requires d < DESC_CNT
  {
    Ptr(p, BlockOfs(d, i))
  }

  /** The first `n` blocks of an arena. */
  function FirstBlocks(p: nat, d: nat, n: nat): set<Ptr>
    requires d < DESC_CNT
  {
    if n == 0 then {} else FirstBlocks(p, d, n - 1) + {BlockAt(p, d, n - 1)}
  }

  function Blocks(p: nat, d: nat): set<Ptr>
    requires d < DESC_CNT
  {
    FirstBlocks(p, d, PerArena(d))
  }

  /** The same blocks in the order they are put on the free list. */
  function BlockSeq(p: nat, d: nat, n: nat): (s: seq<Ptr>)
    requires d < DESC_CNT
    ensures |s| == n && forall i | 0 <= i < n :: s[i] == BlockAt(p, d, i)
  {
    seq(n, i requires 0 <= i => BlockAt(p, d, i))
  }

  function Span(a: Arena): nat {
    if a.Small? then 1 else a.pages
  }

  // ---------------------------------------------------------------- the invariant

  /** The pages of every arena are taken and no two arenas share one. */
  ghost predicate PagesInv(h: Heap) {
    && (forall p | p in h.arenas :: p + Span(h.arenas[p]) <= |h.used| && AllAre(h.used, p, Span(h.arenas[p]), true))
    && (forall p, q | p in h.arenas && q in h.arenas && p < q :: p + Span(h.arenas[p]) <= q)
  }

  /** What is on a free list is there once, and belongs to an arena of that descriptor. */
  ghost predicate ListInv(h: Heap, d: nat)
    requires d < |h.free|
  {
    && NoDup(h.free[d])
    && forall b | b in h.free[d] :: b.page in h.arenas && h.arenas[b.page].Small? && h.arenas[b.page].desc == d
  }

  ghost function LiveIn(h: Heap, p: nat): set<Ptr> {
    set b | b in h.live && b.page == p
  }

  ghost function FreeIn(h: Heap, p: nat, d: nat): set<Ptr> {
    if d < |h.free| then set b | b in h.free[d] && b.page == p else {}
  }

  /** The blocks of an arena are divided between the callers and the free list, and its count
      is the number of blocks on the free list. */
  ghost predicate Divided(live: set<Ptr>, free: set<Ptr>, p: nat, d: nat, c: nat) {
    d < DESC_CNT && c == |free| && live !! free && live + free == Blocks(p, d)
  }

  /** A big block has a single address. */
  ghost predicate ArenaInv(h: Heap, p: nat)
    requires p in h.arenas
  {
    match h.arenas[p]
    case Small(d, c) => Divided(LiveIn(h, p), FreeIn(h, p, d), p, d, c)
    case Big(n) => n >= 1 && LiveIn(h, p) == {Ptr(p, HEADER)}
  }

  /** The room a caller has at `b`. */
  function Capacity(h: Heap, b: Ptr): int
    requires b.page in h.arenas
  {
    match h.arenas[b.page]
    case Small(d, c) => if d < DESC_CNT then BlockSize(d) else 0
    case Big(n) => PGSIZE * n - HEADER
  }

  /** The largest request whose size and header do not wrap around. */
  const MAX_REQUEST: nat := 0xffff_fff4

  /** A block is big enough for its caller, unless a request for a big one wrapped around. */
  ghost predicate RoomInv(h: Heap, b: Ptr)
    requires b in h.live && b.page in h.arenas
  {
    match h.arenas[b.page]
    case Small(d, c) => d < DESC_CNT && 1 <= h.live[b] <= BlockSize(d)
    case Big(n) => 1 <= h.live[b] && (h.live[b] <= PGSIZE * n - HEADER <==> h.live[b] <= MAX_REQUEST)
  }

  ghost predicate LiveInv(h: Heap) {
    forall b {:trigger b in h.live} | b in h.live :: b.page in h.arenas && RoomInv(h, b)
  }

  /** All of the above; holds within a request as well. */
  ghost predicate Consistent(h: Heap) {
    && |h.free| == DESC_CNT && PagesInv(h) && LiveInv(h)
    && (forall d: nat {:trigger ListInv(h, d)} | d < DESC_CNT :: ListInv(h, d))
    && (forall p {:trigger ArenaInv(h, p)} | p in h.arenas :: ArenaInv(h, p))
  }

  /** Between requests, no arena is idle. */
  ghost predicate Busy(h: Heap, p: nat) {
    LiveIn(h, p) != {}
  }

  ghost predicate Inv(h: Heap) {
    Consistent(h) && forall p {:trigger Busy(h, p)} | p in h.arenas :: Busy(h, p)
  }

  // ---------------------------------------------------------------- consequences

  lemma {:induction false} BlocksApart(d: nat, i: nat, j: nat)
    requires d < DESC_CNT && i < j
    ensures BlockOfs(d, i) + BlockSize(d) <= BlockOfs(d, j)
  {
    if i < j - 1 { BlocksApart(d, i, j - 1); }
  }

  lemma BlockFits(d: nat, i: nat)
    requires d < DESC_CNT && i < PerArena(d)
    ensures HEADER <= BlockOfs(d, i) && BlockOfs(d, i) + BlockSize(d) <= PGSIZE
  {
    BlocksApart(d, i, PerArena(d));
    BlockOfsIsProduct(d, i);
    BlockOfsIsProduct(d, PerArena(d));
    CountsRight(d);
    DivMod(PGSIZE - HEADER, BlockSize(d));
  }

  /** Byte `x` of the pool is in the room that `b` gives its caller. */
  ghost predicate Holds(h: Heap, b: Ptr, x: int)
    requires b.page in h.arenas
  {
    PGSIZE * b.page + b.ofs <= x < PGSIZE * b.page + b.ofs + Capacity(h, b)
  }

  /** Live blocks lie inside the taken pages of their arena, past its header. */
  lemma LiveInside(h: Heap, b: Ptr)
    requires Consistent(h) && b in h.live
    ensures b.page in h.arenas && b.ofs >= HEADER
    ensures b.ofs + Capacity(h, b) <= PGSIZE * Span(h.arenas[b.page])
    ensures h.live[b] <= Capacity(h, b) <==> h.live[b] <= MAX_REQUEST
  {
    var p := b.page;
    assert ArenaInv(h, p) && b in LiveIn(h, p);
    if h.arenas[p].Small? {
      var d := h.arenas[p].desc;
      assert b in Blocks(p, d);
      BlockInside(p, d, b);
    }
  }

  lemma {:induction false} BlockIndex(p: nat, d: nat, n: nat, b: Ptr) returns (i: nat)
    requires d < DESC_CNT && b in FirstBlocks(p, d, n)
    ensures i < n && b == BlockAt(p, d, i)
  {
    if b == BlockAt(p, d, n - 1) { i := n - 1; } else { i := BlockIndex(p, d, n - 1, b); }
  }

  lemma BlockInside(p: nat, d: nat, b: Ptr)
    requires d < DESC_CNT && b in Blocks(p, d)
    ensures b.page == p && b.ofs >= HEADER && b.ofs + BlockSize(d) <= PGSIZE
  {
    var i := BlockIndex(p, d, PerArena(d), b);
    BlockFits(d, i);
  }

  /** Live blocks never overlap. */
  lemma LiveDisjoint(h: Heap, b: Ptr, c: Ptr)
    requires Consistent(h) && b in h.live && c in h.live && b != c
    ensures b.page in h.arenas && c.page in h.arenas
    ensures forall x: int :: !(Holds(h, b, x) && Holds(h, c, x))
  {
    LiveInside(h, b);
    LiveInside(h, c);
    if b.page == c.page { SamePage(h, b, c); }
  }

  /** Byte `x` of the pool is in the header of the arena at page `p`. */
  predicate InHeader(p: nat, x: int) { PGSIZE * p <= x < PGSIZE * p + HEADER }

  /** Byte `x` of the pool is in the free block `f` of descriptor `d`. */
  predicate InFree(d: nat, f: Ptr, x: int)
    requires d < DESC_CNT
  {
    PGSIZE * f.page + f.ofs <= x < PGSIZE * f.page + f.ofs + BlockSize(d)
  }

  /** Nobody but the caller that holds `b` has a use for byte `x`. */
  ghost predicate Private(h: Heap, b: Ptr, x: int)
    requires |h.free| == DESC_CNT && forall c | c in h.live :: c.page in h.arenas
  {
    && (forall p | p in h.arenas :: !InHeader(p, x))
    && (forall d: nat, f {:trigger InFree(d, f, x)} | d < DESC_CNT && f in h.free[d] :: !InFree(d, f, x))
    && (forall c | c in h.live && c != b :: !Holds(h, c, x))
  }

  /** The room of a live block is its caller's alone: it contains no header, no byte of a free
      block and none of another live block. */
  lemma RoomPrivate(h: Heap, b: Ptr, x: int)
    requires Consistent(h) && b in h.live && Holds(h, b, x)
    ensures Private(h, b, x)
  {
    LiveInside(h, b);
    forall p | p in h.arenas ensures !InHeader(p, x) { assert ArenaInv(h, p); }
    forall d: nat, f | d < DESC_CNT && f in h.free[d] ensures !InFree(d, f, x) { FreeApart(h, b, d, f, x); }
    forall c | c in h.live && c != b ensures !Holds(h, c, x) { LiveDisjoint(h, b, c); }
  }

  lemma FreeApart(h: Heap, b: Ptr, d: nat, f: Ptr, x: int)
    requires Consistent(h) && b in h.live && Holds(h, b, x) && d < DESC_CNT && f in h.free[d]
    ensures !InFree(d, f, x)
  {
    LiveInside(h, b);
    assert ListInv(h, d) && ArenaInv(h, f.page) && f in FreeIn(h, f.page, d);
    BlockInside(f.page, d, f);
    if f.page == b.page {
      assert b in LiveIn(h, b.page);
      TwoBlocks(b.page, d, b, f);
    }
  }

  lemma TwoBlocks(p: nat, d: nat, b: Ptr, c: Ptr)
    requires d < DESC_CNT && b in Blocks(p, d) && c in Blocks(p, d) && b != c
    ensures b.ofs + BlockSize(d) <= c.ofs || c.ofs + BlockSize(d) <= b.ofs
  {
    var i := BlockIndex(p, d, PerArena(d), b);
    var j := BlockIndex(p, d, PerArena(d), c);
    if i < j { BlocksApart(d, i, j); } else { BlocksApart(d, j, i); }
  }

  lemma SamePage(h: Heap, b: Ptr, c: Ptr)
    requires Consistent(h) && b in h.live && c in h.live && b != c && b.page == c.page
    ensures b.page in h.arenas
    ensures b.ofs + Capacity(h, b) <= c.ofs || c.ofs + Capacity(h, c) <= b.ofs
  {
    var p := b.page;
    assert ArenaInv(h, p) && b in LiveIn(h, p) && c in LiveIn(h, p);
    if h.arenas[p].Small? {
      var d := h.arenas[p].desc;
      TwoBlocks(p, d, b, c);
    }
  }

  // ---------------------------------------------------------------- steps

  /** `palloc_get_multiple`: first fit over the page map. */
  function GetPages(used: seq<bool>, cnt: nat): (r: Option<nat>)
    ensures r.Some? ==> cnt > 0 && FirstFit(used, 0, cnt, false, r)
    ensures r.None? ==> cnt == 0 || FirstFit(used, 0, cnt, false, None)
  {
    Ownership.ScanIsFirstFit(used, 0, cnt);
    if cnt == 0 then None else Ownership.ScanFrom(used, 0, cnt)
  }

  /** A big block at page `p`. */
  function AddBig(h: Heap, p: nat, n: nat, size: nat): Heap
    requires p + n <= |h.used|
  {
    h.(used := Filled(h.used, p, n, true), arenas := h.arenas[p := Big(n)], live := h.live[Ptr(p, HEADER) := size])
  }

  /** A new arena at page `p`, all of whose blocks go to the end of the free list. */
  function AddArena(h: Heap, p: nat, d: nat): Heap
    requires d < DESC_CNT && d < |h.free| && p < |h.used|
  {
    h.(used := Filled(h.used, p, 1, true), arenas := h.arenas[p := Small(d, PerArena(d))],
       free := h.free[d := h.free[d] + BlockSeq(p, d, PerArena(d))])
  }

  /** The block at the front of a free list goes to a caller. */
  function Take(h: Heap, d: nat, size: nat): Heap
    requires d < |h.free| && h.free[d] != []
  {
    var b := h.free[d][0];
    var c := if b.page in h.arenas && h.arenas[b.page].Small? then Max(0, h.arenas[b.page].freeCnt - 1) else 0;
    h.(free := h.free[d := h.free[d][1..]], live := h.live[b := size],
       arenas := h.arenas[b.page := Small(d, c)])
  }

  /** A block goes back to the front of its free list. */
  function Put(h: Heap, b: Ptr, d: nat): Heap
    requires d < |h.free| && b.page in h.arenas && h.arenas[b.page].Small?
  {
    h.(free := h.free[d := [b] + h.free[d]], live := h.live - {b},
       arenas := h.arenas[b.page := Small(d, h.arenas[b.page].freeCnt + 1)])
  }

  function Without(s: seq<Ptr>, out: set<Ptr>): (r: seq<Ptr>)
    ensures forall b :: b in r <==> b in s && b !in out
  {
    if s == [] then [] else (if s[0] in out then [] else [s[0]]) + Without(s[1..], out)
  }

  /** An idle arena gives its blocks and its page back. */
  function DropArena(h: Heap, p: nat, d: nat): Heap
    requires d < DESC_CNT && d < |h.free| && p < |h.used|
  {
    h.(used := Filled(h.used, p, 1, false), arenas := h.arenas - {p},
       free := h.free[d := Without(h.free[d], Blocks(p, d))])
  }

  function DropBig(h: Heap, p: nat, n: nat): Heap
    requires p + n <= |h.used|
  {
    h.(used := Filled(h.used, p, n, false), arenas := h.arenas - {p}, live := h.live - {Ptr(p, HEADER)})
  }

  // ---------------------------------------------------------------- pages

  lemma FreshPages(h: Heap, p: nat, n: nat)
    requires PagesInv(h) && n > 0 && p + n <= |h.used| && AllAre(h.used, p, n, false)
    requires forall q | q in h.arenas :: Span(h.arenas[q]) >= 1
    ensures p !in h.arenas
    ensures forall q | q in h.arenas :: q + Span(h.arenas[q]) <= p || p + n <= q
  {
    forall q | q in h.arenas ensures q + Span(h.arenas[q]) <= p || p + n <= q {
      assert AllAre(h.used, q, Span(h.arenas[q]), true);
      assert h.used[q] && !h.used[p];
    }
  }

  lemma AddPages(h: Heap, h': Heap, p: nat, a: Arena)
    requires PagesInv(h) && p !in h.arenas && p + Span(a) <= |h.used|
    requires forall q | q in h.arenas :: q + Span(h.arenas[q]) <= p || p + Span(a) <= q
    requires h'.used == Filled(h.used, p, Span(a), true) && h'.arenas == h.arenas[p := a]
    requires Span(a) >= 1 && forall q | q in h.arenas :: Span(h.arenas[q]) >= 1
    ensures PagesInv(h')
  {
    forall q | q in h'.arenas
      ensures q + Span(h'.arenas[q]) <= |h'.used| && AllAre(h'.used, q, Span(h'.arenas[q]), true)
    {
      if q != p { assert AllAre(h.used, q, Span(h.arenas[q]), true); }
    }
  }

  lemma DropPages(h: Heap, h': Heap, p: nat)
    requires PagesInv(h) && p in h.arenas
    requires p + Span(h.arenas[p]) <= |h.used| && h'.used == Filled(h.used, p, Span(h.arenas[p]), false)
    requires h'.arenas == h.arenas - {p}
    ensures PagesInv(h')
  {
    var n := Span(h.arenas[p]);
    forall q | q in h'.arenas
      ensures q + Span(h'.arenas[q]) <= |h'.used| && AllAre(h'.used, q, Span(h'.arenas[q]), true)
    {
      OthersTaken(h.used, p, n, q, Span(h.arenas[q]));
    }
  }

  lemma OthersTaken(used: seq<bool>, p: nat, n: nat, q: nat, m: nat)
    requires p + n <= |used| && q + m <= |used| && (p + n <= q || q + m <= p) && AllAre(used, q, m, true)
    ensures AllAre(Filled(used, p, n, false), q, m, true)
  {}

  // ---------------------------------------------------------------- what steps keep

  lemma SpansPositive(h: Heap)
    requires Consistent(h)
    ensures forall q | q in h.arenas :: Span(h.arenas[q]) >= 1
  {
    forall q | q in h.arenas ensures Span(h.arenas[q]) >= 1 { assert ArenaInv(h, q); }
  }

  /** A step that only concerns page `p`. */
  ghost predicate Elsewhere(h: Heap, h': Heap, p: nat) {
    && |h.free| == DESC_CNT && |h'.free| == DESC_CNT
    && h'.arenas.Keys - {p} == h.arenas.Keys - {p}
    && forall q {:trigger SamePageState(h, h', q)} | q in h.arenas && q != p :: SamePageState(h, h', q)
  }

  ghost predicate SamePageState(h: Heap, h': Heap, q: nat)
    requires q in h.arenas
  {
    && q in h'.arenas && h'.arenas[q] == h.arenas[q] && LiveIn(h', q) == LiveIn(h, q)
    && (h.arenas[q].Small? ==> FreeIn(h', q, h.arenas[q].desc) == FreeIn(h, q, h.arenas[q].desc))
  }

  /** Arenas on other pages are not affected. */
  lemma OtherArenas(h: Heap, h': Heap, p: nat)
    requires Consistent(h) && Elsewhere(h, h', p) && (p in h'.arenas ==> ArenaInv(h', p))
    ensures forall q {:trigger ArenaInv(h', q)} | q in h'.arenas :: ArenaInv(h', q)
  {
    forall q | q in h'.arenas ensures ArenaInv(h', q) {
      if q != p {
        assert q in h'.arenas.Keys - {p};
        assert ArenaInv(h, q) && SamePageState(h, h', q);
      }
    }
  }

  lemma AddBigKeeps(h: Heap, p: nat, n: nat, size: nat)
    requires Consistent(h) && n > 0 && p + n <= |h.used| && AllAre(h.used, p, n, false)
    requires 1 <= size && (size <= PGSIZE * n - HEADER <==> size <= MAX_REQUEST)
    ensures var h' := AddBig(h, p, n, size); p !in h.arenas && Consistent(h') && Elsewhere(h, h', p)
  {
    var h' := AddBig(h, p, n, size);
    assert PagesInv(h') && p !in h.arenas by {
      SpansPositive(h);
      FreshPages(h, p, n);
      AddPages(h, h', p, Big(n));
    }
    NewPage(h, h', p);
    assert LiveIn(h', p) == {Ptr(p, HEADER)};
    OtherArenas(h, h', p);
    forall d: nat | d < DESC_CNT ensures ListInv(h', d) { assert ListInv(h, d); }
  }

  /** Nothing is known of a page before it has an arena. */
  lemma NewPage(h: Heap, h': Heap, p: nat)
    requires Consistent(h) && p !in h.arenas && |h'.free| == DESC_CNT
    requires h'.arenas.Keys == h.arenas.Keys + {p} && forall q | q in h.arenas :: h'.arenas[q] == h.arenas[q]
    requires forall b: Ptr :: b.page != p ==> (b in h'.live <==> b in h.live)
    requires forall b: Ptr, d | 0 <= d < DESC_CNT && b.page != p :: b in h'.free[d] <==> b in h.free[d]
    ensures Elsewhere(h, h', p) && forall b | b in h.live :: b.page != p
  {
    forall q | q in h.arenas && q != p ensures SamePageState(h, h', q) {}
  }

  lemma BlocksOnce(p: nat, d: nat, n: nat)
    requires d < DESC_CNT
    ensures NoDup(BlockSeq(p, d, n))
  {
    forall i: nat, j: nat | i < j < n ensures BlockAt(p, d, i) != BlockAt(p, d, j) { BlocksApart(d, i, j); }
  }

  lemma {:induction false} BlocksCount(p: nat, d: nat, n: nat)
    requires d < DESC_CNT
    ensures |FirstBlocks(p, d, n)| == n
  {
    if n > 0 {
      BlocksCount(p, d, n - 1);
      var last := BlockAt(p, d, n - 1);
      if last in FirstBlocks(p, d, n - 1) {
        var i := BlockIndex(p, d, n - 1, last);
        BlocksApart(d, i, n - 1);
        assert false;
      }
    }
  }

  lemma {:induction false} BlocksListed(p: nat, d: nat, n: nat)
    requires d < DESC_CNT
    ensures forall b :: b in BlockSeq(p, d, n) <==> b in FirstBlocks(p, d, n)
    ensures forall b | b in FirstBlocks(p, d, n) :: b.page == p
  {
    if n > 0 {
      BlocksListed(p, d, n - 1);
      assert BlockSeq(p, d, n) == BlockSeq(p, d, n - 1) + [BlockAt(p, d, n - 1)];
    }
  }

  lemma AddArenaKeeps(h: Heap, p: nat, d: nat)
    requires Consistent(h) && d < DESC_CNT && p < |h.used| && !h.used[p]
    ensures var h' := AddArena(h, p, d); p !in h.arenas && Consistent(h') && Elsewhere(h, h', p)
  {
    var h' := AddArena(h, p, d);
    assert PagesInv(h') && p !in h.arenas by {
      SpansPositive(h);
      FreshPages(h, p, 1);
      AddPages(h, h', p, Small(d, PerArena(d)));
    }
    NewPage(h, h', p);
    NewList(h, h', p, d);
    assert ListInv(h, d);
    NewBlocks(h, h', p, d);
    OtherArenas(h, h', p);
  }

  lemma NewList(h: Heap, h': Heap, p: nat, d: nat)
    requires |h.free| == DESC_CNT && d < DESC_CNT && p !in h.arenas
    requires forall e: nat {:trigger ListInv(h, e)} | e < DESC_CNT :: ListInv(h, e)
    requires h'.free == h.free[d := h.free[d] + BlockSeq(p, d, PerArena(d))]
    requires h'.arenas == h.arenas[p := Small(d, PerArena(d))]
    ensures forall e: nat {:trigger ListInv(h', e)} | e < DESC_CNT :: ListInv(h', e)
  {
    BlocksOnce(p, d, PerArena(d));
    assert ListInv(h, d);
    forall e: nat | e < DESC_CNT ensures ListInv(h', e) { assert ListInv(h, e); }
  }

  lemma NewBlocks(h: Heap, h': Heap, p: nat, d: nat)
    requires |h.free| == DESC_CNT && d < DESC_CNT && p !in h.arenas && ListInv(h, d)
    requires h'.free == h.free[d := h.free[d] + BlockSeq(p, d, PerArena(d))]
    requires p in h'.arenas && h'.arenas[p] == Small(d, PerArena(d)) && forall b | b in h'.live :: b.page != p
    ensures ArenaInv(h', p)
  {
    BlocksListed(p, d, PerArena(d));
    BlocksCount(p, d, PerArena(d));
    assert FreeIn(h', p, d) == Blocks(p, d);
    assert LiveIn(h', p) == {};
  }

  /** A step that moves one block of the arena at `p` between the callers and the free list. */
  ghost predicate Moves(h: Heap, h': Heap, p: nat, d: nat, c: nat) {
    && d < DESC_CNT && p in h.arenas && h.arenas[p].Small? && h.arenas[p].desc == d
    && h'.used == h.used && h'.arenas == h.arenas[p := Small(d, c)]
    && |h.free| == DESC_CNT && |h'.free| == DESC_CNT
    && (forall e: nat | e < DESC_CNT && e != d :: h'.free[e] == h.free[e])
    && (forall b: Ptr :: b.page != p ==> (b in h'.free[d] <==> b in h.free[d]))
    && (forall b: Ptr | b.page != p :: b in h'.live <==> b in h.live)
    && (forall b: Ptr | b in h'.live && b in h.live && b.page != p :: h'.live[b] == h.live[b])
  }

  lemma MovesKeep(h: Heap, h': Heap, p: nat, d: nat, c: nat)
    requires Consistent(h) && Moves(h, h', p, d, c)
    requires NoDup(h'.free[d]) && ArenaInv(h', p)
    requires forall b | b in h'.live && b.page == p :: 1 <= h'.live[b] <= BlockSize(d)
    ensures Consistent(h') && Elsewhere(h, h', p)
  {
    assert PagesInv(h') by { SamePages(h, h', p, c); }
    assert LiveInv(h') by { MovesLive(h, h', p, d, c); }
    MovesElsewhere(h, h', p, d, c);
    OtherArenas(h, h', p);
    forall e: nat | e < DESC_CNT ensures ListInv(h', e) {
      assert ListInv(h, e);
      MovesList(h, h', p, d, c, e);
    }
  }

  lemma MovesElsewhere(h: Heap, h': Heap, p: nat, d: nat, c: nat)
    requires Moves(h, h', p, d, c)
    ensures Elsewhere(h, h', p)
  {
    forall q | q in h.arenas && q != p ensures SamePageState(h, h', q) {}
  }

  lemma MovesLive(h: Heap, h': Heap, p: nat, d: nat, c: nat)
    requires LiveInv(h) && Moves(h, h', p, d, c)
    requires forall b | b in h'.live && b.page == p :: 1 <= h'.live[b] <= BlockSize(d)
    ensures LiveInv(h')
  {}

  lemma MovesList(h: Heap, h': Heap, p: nat, d: nat, c: nat, e: nat)
    requires Moves(h, h', p, d, c) && e < DESC_CNT && ListInv(h, e) && NoDup(h'.free[d])
    ensures ListInv(h', e)
  {}

  lemma SamePages(h: Heap, h': Heap, p: nat, c: nat)
    requires PagesInv(h) && p in h.arenas && h.arenas[p].Small?
    requires h'.used == h.used && h'.arenas == h.arenas[p := Small(h.arenas[p].desc, c)]
    ensures PagesInv(h')
  {
    forall q | q in h'.arenas
      ensures q + Span(h'.arenas[q]) <= |h'.used| && AllAre(h'.used, q, Span(h'.arenas[q]), true)
    {
      assert AllAre(h.used, q, Span(h.arenas[q]), true);
    }
  }

  lemma TakeKeeps(h: Heap, d: nat, size: nat)
    requires Consistent(h) && d < DESC_CNT && h.free[d] != [] && 1 <= size <= BlockSize(d)
    ensures var h', b := Take(h, d, size), h.free[d][0];
            && Consistent(h') && Elsewhere(h, h', b.page) && b.page in h.arenas && b !in h.live
            && h'.live == h.live[b := size] && Busy(h', b.page)
  {
    var h', b := Take(h, d, size), h.free[d][0];
    var p := b.page;
    assert ListInv(h, d) && ArenaInv(h, p);
    TakeMoves(h, d, size);
    TakeBlock(h, d, size);
    TakeSizes(h, h', p, d, b, size);
    MovesKeep(h, h', p, d, h'.arenas[p].freeCnt);
  }

  lemma TakeBlock(h: Heap, d: nat, size: nat)
    requires |h.free| == DESC_CNT && d < DESC_CNT && h.free[d] != [] && ListInv(h, d)
    requires ArenaInv(h, h.free[d][0].page)
    ensures var h', b := Take(h, d, size), h.free[d][0];
            ArenaInv(h', b.page) && b !in h.live && Busy(h', b.page)
  {
    FrontOnce(h.free[d]);
    TakeArena(h, Take(h, d, size), h.free[d][0].page, d, h.free[d][0]);
  }

  lemma TakeSizes(h: Heap, h': Heap, p: nat, d: nat, b: Ptr, size: nat)
    requires LiveInv(h) && p in h.arenas && d < DESC_CNT && h.arenas[p].Small? && h.arenas[p].desc == d
    requires h'.live == h.live[b := size] && 1 <= size <= BlockSize(d)
    ensures forall x | x in h'.live && x.page == p :: 1 <= h'.live[x] <= BlockSize(d)
  {
    SizesIn(h, p, d);
  }

  lemma TakeMoves(h: Heap, d: nat, size: nat)
    requires |h.free| == DESC_CNT && d < DESC_CNT && h.free[d] != [] && ListInv(h, d)
    ensures var h', p := Take(h, d, size), h.free[d][0].page;
            Moves(h, h', p, d, h'.arenas[p].freeCnt) && NoDup(h'.free[d])
  {
    FrontOnce(h.free[d]);
  }

  lemma PutMoves(h: Heap, b: Ptr, d: nat)
    requires |h.free| == DESC_CNT && d < DESC_CNT && b.page in h.arenas && ListInv(h, d)
    requires h.arenas[b.page].Small? && h.arenas[b.page].desc == d && b !in h.free[d]
    ensures var h', p := Put(h, b, d), b.page;
            Moves(h, h', p, d, h'.arenas[p].freeCnt) && NoDup(h'.free[d])
  {}

  lemma SizesIn(h: Heap, p: nat, d: nat)
    requires LiveInv(h) && p in h.arenas && d < DESC_CNT && h.arenas[p].Small? && h.arenas[p].desc == d
    ensures forall x | x in h.live && x.page == p :: 1 <= h.live[x] <= BlockSize(d)
  {}

  lemma TakeArena(h: Heap, h': Heap, p: nat, d: nat, b: Ptr)
    requires p in h.arenas && ArenaInv(h, p) && h.arenas[p].Small? && h.arenas[p].desc == d
    requires d < |h.free| && d < |h'.free| && b in h.free[d] && b.page == p
    requires forall x :: x in h'.free[d] <==> x in h.free[d] && x != b
    requires h'.live.Keys == h.live.Keys + {b}
    requires p in h'.arenas && h'.arenas[p] == Small(d, Max(0, h.arenas[p].freeCnt - 1))
    ensures ArenaInv(h', p) && b !in h.live && Busy(h', p)
  {
    HandOut(LiveIn(h, p), FreeIn(h, p, d), p, d, h.arenas[p].freeCnt, b);
    FreeLess(h, h', p, d, b);
    assert LiveIn(h', p) == LiveIn(h, p) + {b};
    assert b in LiveIn(h', p);
    assert b in h.live ==> b in LiveIn(h, p);
  }

  lemma FreeLess(h: Heap, h': Heap, p: nat, d: nat, b: Ptr)
    requires d < |h.free| && d < |h'.free| && forall x :: x in h'.free[d] <==> x in h.free[d] && x != b
    ensures FreeIn(h', p, d) == FreeIn(h, p, d) - {b}
  {}

  lemma HandOut(x: set<Ptr>, y: set<Ptr>, p: nat, d: nat, c: nat, b: Ptr)
    requires Divided(x, y, p, d, c) && b in y
    ensures c > 0 && b !in x && Divided(x + {b}, y - {b}, p, d, c - 1)
  {}

  lemma HandBack(x: set<Ptr>, y: set<Ptr>, p: nat, d: nat, c: nat, b: Ptr)
    requires Divided(x, y, p, d, c) && b in x
    ensures b !in y && Divided(x - {b}, y + {b}, p, d, c + 1)
  {}

  lemma PutArena(h: Heap, h': Heap, p: nat, d: nat, b: Ptr)
    requires p in h.arenas && ArenaInv(h, p) && h.arenas[p].Small? && h.arenas[p].desc == d
    requires d < |h.free| && d < |h'.free| && b in h.live && b.page == p
    requires forall x :: x in h'.free[d] <==> x in h.free[d] || x == b
    requires h'.live.Keys == h.live.Keys - {b}
    requires p in h'.arenas && h'.arenas[p] == Small(d, h.arenas[p].freeCnt + 1)
    ensures ArenaInv(h', p) && b !in h.free[d] && LiveIn(h', p) == LiveIn(h, p) - {b}
  {
    assert b in LiveIn(h, p) && (b in h.free[d] ==> b in FreeIn(h, p, d));
    HandBack(LiveIn(h, p), FreeIn(h, p, d), p, d, h.arenas[p].freeCnt, b);
    FreeMore(h, h', p, d, b);
    LiveLess(h, h', p, b);
  }

  lemma FreeMore(h: Heap, h': Heap, p: nat, d: nat, b: Ptr)
    requires d < |h.free| && d < |h'.free| && b.page == p
    requires forall x :: x in h'.free[d] <==> x in h.free[d] || x == b
    ensures FreeIn(h', p, d) == FreeIn(h, p, d) + {b}
  {}

  lemma LiveLess(h: Heap, h': Heap, p: nat, b: Ptr)
    requires h'.live.Keys == h.live.Keys - {b}
    ensures LiveIn(h', p) == LiveIn(h, p) - {b}
  {}

  lemma FrontOnce(s: seq<Ptr>)
    requires s != [] && NoDup(s)
    ensures forall b :: b in s[1..] <==> b in s && b != s[0]
  {
    assert s == [s[0]] + s[1..];
  }

  lemma PutKeeps(h: Heap, b: Ptr)
    requires Consistent(h) && b in h.live && h.arenas[b.page].Small?
    ensures var d := h.arenas[b.page].desc;
            && d < DESC_CNT
            && var h' := Put(h, b, d);
               && Consistent(h') && Elsewhere(h, h', b.page) && h'.live == h.live - {b}
               && LiveIn(h', b.page) == LiveIn(h, b.page) - {b}
  {
    var p, d := b.page, h.arenas[b.page].desc;
    assert ArenaInv(h, p) && ListInv(h, d);
    var h' := Put(h, b, d);
    PutArena(h, h', p, d, b);
    PutMoves(h, b, d);
    SizesIn(h, p, d);
    MovesKeep(h, h', p, d, h'.arenas[p].freeCnt);
  }

  lemma {:induction false} WithoutOnce(s: seq<Ptr>, out: set<Ptr>)
    requires NoDup(s)
    ensures NoDup(Without(s, out))
  {
    if s != [] {
      assert forall i | 0 <= i < |s[1..]| :: s[1..][i] == s[i + 1];
      WithoutOnce(s[1..], out);
      assert s[0] !in s[1..];
    }
  }

  /** The count of an arena reaches its number of blocks exactly when no caller holds any. */
  lemma IdleIffFull(h: Heap, p: nat)
    requires Consistent(h) && p in h.arenas && h.arenas[p].Small?
    ensures h.arenas[p].desc < DESC_CNT
    ensures h.arenas[p].freeCnt <= PerArena(h.arenas[p].desc)
    ensures h.arenas[p].freeCnt == PerArena(h.arenas[p].desc) <==> LiveIn(h, p) == {}
  {
    assert ArenaInv(h, p);
    var d := h.arenas[p].desc;
    BlocksCount(p, d, PerArena(d));
    assert FreeIn(h, p, d) == Blocks(p, d) - LiveIn(h, p);
    assert |Blocks(p, d)| == |LiveIn(h, p)| + |FreeIn(h, p, d)|;
  }

  lemma DropArenaKeeps(h: Heap, p: nat)
    requires Consistent(h) && p in h.arenas && h.arenas[p].Small? && LiveIn(h, p) == {}
    ensures var d := h.arenas[p].desc;
            && d < DESC_CNT && p < |h.used|
            && var h' := DropArena(h, p, d); Consistent(h') && Elsewhere(h, h', p)
  {
    var d := h.arenas[p].desc;
    assert ArenaInv(h, p) && ListInv(h, d) && AllAre(h.used, p, 1, true);
    var h' := DropArena(h, p, d);
    assert PagesInv(h') by { DropPages(h, h', p); }
    WithoutOnce(h.free[d], Blocks(p, d));
    DroppedElsewhere(h, h', p, d);
    DroppedBlocks(h, p, d);
    forall e: nat | e < DESC_CNT ensures ListInv(h', e) {
      assert ListInv(h, e);
      DroppedList(h, h', p, d, e);
    }
    assert LiveInv(h') by { IdleLive(h, h', p); }
    OtherArenas(h, h', p);
  }

  lemma DroppedElsewhere(h: Heap, h': Heap, p: nat, d: nat)
    requires |h.free| == DESC_CNT && d < DESC_CNT
    requires h'.free == h.free[d := Without(h.free[d], Blocks(p, d))]
    requires h'.arenas == h.arenas - {p} && h'.live == h.live
    ensures Elsewhere(h, h', p)
  {
    BlocksListed(p, d, PerArena(d));
    forall q | q in h.arenas && q != p ensures SamePageState(h, h', q) {}
  }

  lemma IdleLive(h: Heap, h': Heap, p: nat)
    requires LiveInv(h) && LiveIn(h, p) == {} && h'.live == h.live && h'.arenas == h.arenas - {p}
    ensures LiveInv(h')
  {
    forall b | b in h.live ensures b.page != p { assert b.page == p ==> b in LiveIn(h, p); }
  }

  lemma DroppedBlocks(h: Heap, p: nat, d: nat)
    requires d < DESC_CNT == |h.free| && p in h.arenas && ArenaInv(h, p)
    requires h.arenas[p].Small? && h.arenas[p].desc == d
    ensures forall b | b in Without(h.free[d], Blocks(p, d)) :: b.page != p
  {
    forall b | b in h.free[d] && b.page == p ensures b in Blocks(p, d) { assert b in FreeIn(h, p, d); }
  }

  lemma DroppedList(h: Heap, h': Heap, p: nat, d: nat, e: nat)
    requires |h.free| == DESC_CNT && d < DESC_CNT && e < DESC_CNT && ListInv(h, e)
    requires p in h.arenas && h.arenas[p].Small? && h.arenas[p].desc == d
    requires h'.free == h.free[d := Without(h.free[d], Blocks(p, d))] && NoDup(h'.free[d])
    requires h'.arenas == h.arenas - {p} && forall b | b in h'.free[d] :: b.page != p
    ensures ListInv(h', e)
  {}

  lemma DropBigKeeps(h: Heap, p: nat)
    requires Consistent(h) && p in h.arenas && h.arenas[p].Big?
    ensures var n := h.arenas[p].pages;
            && p + n <= |h.used|
            && var h' := DropBig(h, p, n); Consistent(h') && Elsewhere(h, h', p)
  {
    var n := h.arenas[p].pages;
    assert ArenaInv(h, p) && AllAre(h.used, p, n, true);
    var h' := DropBig(h, p, n);
    assert PagesInv(h') by { DropPages(h, h', p); }
    BigGone(h, h', p);
    assert LiveInv(h');
    OtherArenas(h, h', p);
    forall d: nat | d < DESC_CNT ensures ListInv(h', d) {
      assert ListInv(h, d);
      BigUnlisted(h, h', p, d);
    }
  }

  lemma BigGone(h: Heap, h': Heap, p: nat)
    requires |h.free| == DESC_CNT && p in h.arenas && h.arenas[p].Big? && ArenaInv(h, p)
    requires h'.arenas == h.arenas - {p} && h'.live == h.live - {Ptr(p, HEADER)} && h'.free == h.free
    ensures Elsewhere(h, h', p) && forall b | b in h'.live :: b.page != p
  {
    forall b | b in h'.live ensures b.page != p { assert b.page == p ==> b in LiveIn(h, p); }
    forall q | q in h.arenas && q != p ensures SamePageState(h, h', q) {}
  }

  lemma BigUnlisted(h: Heap, h': Heap, p: nat, d: nat)
    requires d < |h.free| && ListInv(h, d) && p in h.arenas && h.arenas[p].Big?
    requires h'.arenas == h.arenas - {p} && h'.free == h.free
    ensures ListInv(h', d)
  {}
}
