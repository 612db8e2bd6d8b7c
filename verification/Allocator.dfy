/** The kernel's `malloc` as it changes descriptors, arenas and the page map in place
    (src/threads/malloc.c, src/threads/palloc.c). */
module Allocator {
  import opened Common
  import opened Bitmap
  import opened Arenas
  import M = Malloc
  import A = Arithmetic

  /** Taking one more element out of a list that has it at most once. */
  lemma {:induction false} RemoveOne(s: seq<Ptr>, out: set<Ptr>, b: Ptr)
    requires NoDup(s)
    ensures Removed(Without(s, out), b) == Without(s, out + {b})
  {
    if s != [] {
      var t := s[1..];
      assert forall i | 0 <= i < |t| :: t[i] == s[i + 1];
      RemoveOne(t, out, b);
      if s[0] == b && b !in out {
        assert b !in t;
        SameWithout(t, out, b);
        assert Without(s, out) == [b] + Without(t, out);
      } else if s[0] !in out {
        assert Without(s, out) == [s[0]] + Without(t, out);
        assert ([s[0]] + Without(t, out))[1..] == Without(t, out);
      } else {
        assert Without(s, out) == Without(t, out) && Without(s, out + {b}) == Without(t, out + {b});
      }
    }
  }

  lemma {:induction false} SameWithout(s: seq<Ptr>, out: set<Ptr>, b: Ptr)
    requires b !in s
    ensures Without(s, out + {b}) == Without(s, out)
  {
    if s != [] { SameWithout(s[1..], out, b); }
  }

  lemma {:induction false} WithoutNone(s: seq<Ptr>)
    ensures Without(s, {}) == s
  {
    if s != [] { WithoutNone(s[1..]); }
  }

  /** The loop that takes the blocks of an idle arena off the free list. */
  method RemoveBlocks(list: seq<Ptr>, p: nat, d: nat) returns (rest: seq<Ptr>)
    requires d < DESC_CNT && NoDup(list)
    ensures rest == Without(list, Blocks(p, d))
  {
    WithoutNone(list);
    rest := list;
    for i := 0 to PerArena(d)
      invariant rest == Without(list, FirstBlocks(p, d, i))
    {
      RemoveOne(list, FirstBlocks(p, d, i), BlockAt(p, d, i));
      rest := Removed(rest, BlockAt(p, d, i));
    }
  }

  lemma ListedCount(h: Heap, d: nat, b: Ptr)
    requires Consistent(h) && d < DESC_CNT && b in h.free[d]
    ensures b.page in h.arenas && h.arenas[b.page].Small? && h.arenas[b.page].freeCnt > 0
  {
    assert ListInv(h, d) && ArenaInv(h, b.page);
    assert b in FreeIn(h, b.page, d);
  }

  /** What `free` relies on in the block it is given. */
  ghost predicate CanFree(h: Heap, b: Ptr)
    requires |h.free| == DESC_CNT
  {
    && b.page in h.arenas && b.page + Span(h.arenas[b.page]) <= |h.used|
    && AllAre(h.used, b.page, Span(h.arenas[b.page]), true)
    && match h.arenas[b.page]
       case Small(d, c) => d < DESC_CNT && NoDup([b] + h.free[d])
       case Big(n) => b.ofs == HEADER
  }

  lemma Freeable(h: Heap, b: Ptr)
    requires Consistent(h) && b in h.live
    ensures CanFree(h, b)
  {
    assert ArenaInv(h, b.page) && AllAre(h.used, b.page, Span(h.arenas[b.page]), true);
    assert b in LiveIn(h, b.page);
    if h.arenas[b.page].Small? {
      var d := h.arenas[b.page].desc;
      PutKeeps(h, b);
      assert ListInv(Put(h, b, d), d);
      assert Put(h, b, d).free[d] == [b] + h.free[d];
    }
  }

  class Allocator {
    const usedMap: BitmapObject
    var arenas: map<nat, Arena>
    var free: seq<seq<Ptr>>
    ghost var live: map<Ptr, nat>

    ghost function View(): Heap
      reads this, usedMap.bits
      requires usedMap.Valid()
    {
      Heap(usedMap.View(), arenas, free, live)
    }

    ghost predicate Valid()
      reads this, usedMap.bits
    {
      usedMap.Valid() && Inv(View())
    }

    constructor (pool: BitmapObject)
      requires pool.Valid()
      ensures usedMap == pool && Valid() && live == map[] && usedMap.View() == old(pool.View())
    {
      usedMap := pool;
      arenas := map[];
      free := seq(DESC_CNT, _ => []);
      live := map[];
      new;
      M.InitInv(pool.View());
    }

    /** `palloc_get_multiple` takes the lowest run of free pages that is long enough; it fails,
        changing nothing, if there is none or no page is asked for. */
    method GetMultiple(cnt: nat) returns (r: Option<nat>)
      requires usedMap.Valid()
      modifies usedMap.bits
      ensures r.Some? ==> cnt > 0
      ensures cnt > 0 ==> FirstFit(old(usedMap.View()), 0, cnt, false, r)
      ensures r.None? ==> usedMap.View() == old(usedMap.View())
      ensures r.Some? ==> usedMap.View() == Filled(old(usedMap.View()), r.value, cnt, true)
      ensures r == GetPages(old(usedMap.View()), cnt)
    {
      if cnt == 0 {
        return None;
      }
      r := usedMap.ScanAndFlip(0, cnt, false);
      FirstFitUnique(old(usedMap.View()), 0, cnt, false, r, GetPages(old(usedMap.View()), cnt));
    }

    /** `palloc_free_multiple` of pages that are in use, which is what it asserts. */
    method FreeMultiple(p: nat, cnt: nat)
      requires usedMap.Valid() && p + cnt <= usedMap.bitCnt && AllAre(usedMap.View(), p, cnt, true)
      modifies usedMap.bits
      ensures usedMap.View() == Filled(old(usedMap.View()), p, cnt, false)
    {
      if cnt == 0 {
        assert usedMap.View() == Filled(usedMap.View(), p, cnt, false);
        return;
      }
      var anyFree := usedMap.Contains(p, cnt, false);
      assert !anyFree;
      usedMap.SetMultiple(p, cnt, false);
    }

    /** `malloc` */
    method Malloc(size: A.Word32) returns (r: Option<Ptr>)
      requires Valid()
      modifies this, usedMap.bits
      ensures (View(), r) == M.Alloc(old(View()), size)
      ensures Valid() && (r.None? ==> View() == old(View()))
      ensures r.Some? ==> r.value !in old(live) && live == old(live)[r.value := size]
    {
      M.AllocKeeps(View(), size);
      forall d: nat, b | d < DESC_CNT && b in free[d]
        ensures b.page in arenas && arenas[b.page].Small? && arenas[b.page].freeCnt > 0
      {
        ListedCount(View(), d, b);
      }
      r := MallocSteps(size);
    }

    method MallocSteps(size: A.Word32) returns (r: Option<Ptr>)
      requires usedMap.Valid() && |free| == DESC_CNT
      requires forall d: nat, b | d < DESC_CNT && b in free[d] ::
                 b.page in arenas && arenas[b.page].Small? && arenas[b.page].freeCnt > 0
      modifies this, usedMap.bits
      ensures (View(), r) == M.Alloc(old(View()), size)
    {
      if size == 0 {
        return None;
      }
      var d := FindDesc(size);
      if d == DESC_CNT {
        var p := GetMultiple(M.PagesFor(size));
        if p.None? {
          return None;
        }
        arenas := arenas[p.value := Big(M.PagesFor(size))];
        live := live[Ptr(p.value, HEADER) := size];
        return Some(Ptr(p.value, HEADER));
      }
      if free[d] == [] {
        var p := GetMultiple(1);
        if p.None? {
          return None;
        }
        NewArena(p.value, d);
      }
      r := PopBlock(d, size);
    }

    method FindDesc(size: nat) returns (d: nat)
      ensures d == M.DescFor(size, 0)
    {
      d := 0;
      while d < DESC_CNT && BlockSize(d) < size
        invariant d <= DESC_CNT && M.DescFor(size, d) == M.DescFor(size, 0)
      {
        d := d + 1;
      }
    }

    /** A fresh page becomes an arena whose blocks join the free list. */
    method NewArena(p: nat, d: nat)
      requires d < DESC_CNT == |free|
      modifies `arenas, `free
      ensures arenas == old(arenas)[p := Small(d, PerArena(d))]
      ensures free == old(free)[d := old(free[d]) + BlockSeq(p, d, PerArena(d))]
    {
      arenas := arenas[p := Small(d, PerArena(d))];
      ghost var list := free[d];
      assert list == list + BlockSeq(p, d, 0) && free == free[d := list];
      for i := 0 to PerArena(d)
        invariant arenas == old(arenas)[p := Small(d, PerArena(d))]
        invariant free == old(free)[d := list + BlockSeq(p, d, i)]
      {
        assert list + BlockSeq(p, d, i + 1) == list + BlockSeq(p, d, i) + [BlockAt(p, d, i)];
        free := free[d := free[d] + [BlockAt(p, d, i)]];
      }
    }

    method PopBlock(d: nat, size: nat) returns (r: Option<Ptr>)
      requires usedMap.Valid() && d < DESC_CNT == |free| && free[d] != []
      requires var p := free[d][0].page; p in arenas && arenas[p].Small? && arenas[p].freeCnt > 0
      modifies this
      ensures r == Some(old(free[d][0])) && View() == Take(old(View()), d, size)
    {
      var b := free[d][0];
      free := free[d := free[d][1..]];
      arenas := arenas[b.page := Small(d, arenas[b.page].freeCnt - 1)];
      live := live[b := size];
      return Some(b);
    }

    /** `free` */
    method Free(p: Option<Ptr>)
      requires Valid() && (p.Some? ==> p.value in live)
      modifies this, usedMap.bits
      ensures View() == M.Serve(old(View()), M.Free(p))
      ensures Valid() && live == old(live) - M.Held(p)
    {
      if p.Some? {
        var b := p.value;
        M.ReleaseKeeps(View(), b);
        Freeable(View(), b);
        FreeSteps(b);
      }
    }

    method FreeSteps(b: Ptr)
      requires usedMap.Valid() && |free| == DESC_CNT && CanFree(View(), b)
      modifies this, usedMap.bits
      ensures View() == M.Release(old(View()), b)
    {
      match arenas[b.page]
      case Small(d, c) => FreeSmall(b, d);
      case Big(n) =>
        FreeMultiple(b.page, n);
        arenas := arenas - {b.page};
        live := live - {b};
    }

    method FreeSmall(b: Ptr, d: nat)
      requires usedMap.Valid() && b.page < usedMap.bitCnt && AllAre(usedMap.View(), b.page, 1, true)
      requires d < DESC_CNT == |free| && b.page in arenas
      requires arenas[b.page].Small? && arenas[b.page].desc == d && NoDup([b] + free[d])
      modifies this, usedMap.bits
      ensures View() == M.Release(old(View()), b)
    {
      free := free[d := [b] + free[d]];
      arenas := arenas[b.page := Small(d, arenas[b.page].freeCnt + 1)];
      live := live - {b};
      if arenas[b.page].freeCnt >= PerArena(d) {
        var rest := RemoveBlocks(free[d], b.page, d);
        free := free[d := rest];
        FreeMultiple(b.page, 1);
        arenas := arenas - {b.page};
      }
    }

    /** `realloc`, whose copy is that of `Malloc.CopyKeeps`.  Nothing is promised of a request with
        which the copy overruns the new block. */
    method Realloc(prev: Option<Ptr>, size: A.Word32) returns (r: Option<Ptr>)
      requires Valid() && (prev.Some? ==> prev.value in live)
      modifies this, usedMap.bits
      ensures !M.Overruns(old(View()), prev, size) ==> Valid() && (View(), r) == M.Resize(old(View()), prev, size)
    {
      if size == 0 {
        Free(prev);
        return None;
      }
      r := Malloc(size);
      if prev.Some? && r.Some? {
        Free(prev);
      }
    }
  }
}
