/** Swap slots (src/vm/swap.c): a page occupies eight consecutive sectors found by first fit
    on a bitmap with one bit per sector. */
module Swap {
  import opened Common
  import opened Bitmap

  type Page = p: seq<Byte> | |p| == 4096 witness seq(4096, _ => 0)

  /** The part of the page at `addr + ofs * BLOCK_SECTOR_SIZE`. */
  function Part(p: Page, ofs: nat): Sector
    requires ofs < 8
  {
    p[ofs * 512..ofs * 512 + 512]
  }

  /** Slots are eight-aligned and inside the device. */
  ghost predicate SlotsIn(held: set<nat>, n: nat) {
    forall i | i in held :: i % 8 == 0 && i + 8 <= n
  }

  /** No fragmentation: a sector is marked exactly when the aligned group it is in is held. */
  ghost predicate GroupsMatch(b: seq<bool>, held: set<nat>) {
    forall i | 0 <= i < |b| :: b[i] <==> i / 8 * 8 in held
  }

  /** First fit of eight bits finds an aligned slot, or there is none left. */
  lemma FirstFitIsAligned(b: seq<bool>, held: set<nat>, r: Option<nat>)
    requires SlotsIn(held, |b|) && GroupsMatch(b, held) && FirstFit(b, 0, 8, false, r)
    ensures r.Some? ==> r.value % 8 == 0 && r.value + 8 <= |b| && r.value !in held
    ensures r.None? ==> forall g: nat | g < |b| / 8 :: 8 * g in held
  {
    if r.Some? {
      var k := r.value;
      assert !b[k];
      FreeGroup(b, held, k / 8);
    } else {
      forall g: nat | g < |b| / 8 ensures 8 * g in held {
        if 8 * g !in held { FreeGroup(b, held, g); }
      }
    }
  }

  lemma FreeGroup(b: seq<bool>, held: set<nat>, g: nat)
    requires GroupsMatch(b, held) && 8 * g + 8 <= |b| && 8 * g !in held
    ensures AllAre(b, 8 * g, 8, false)
  {
    forall i | 8 * g <= i < 8 * g + 8 ensures !b[i] {
      assert i / 8 == g;
    }
  }

  ghost function AllSlots(n: nat): (s: set<nat>)
    ensures |s| == n && forall i | i in s :: i < 8 * n
  {
    if n == 0 then {} else AllSlots(n - 1) + {8 * (n - 1)}
  }

  lemma {:induction false} InSlots(n: nat, i: nat)
    requires i % 8 == 0 && i < 8 * n
    ensures i in AllSlots(n)
  {
    if i < 8 * (n - 1) { InSlots(n - 1, i); }
  }

  /** A slot is left exactly while fewer pages are held than the device has groups. */
  lemma SlotLeft(held: set<nat>, n: nat)
    requires SlotsIn(held, n)
    ensures |held| <= n / 8
    ensures |held| == n / 8 <==> forall g: nat | g < n / 8 :: 8 * g in held
  {
    var all := AllSlots(n / 8);
    forall i | i in held ensures i in all { InSlots(n / 8, i); }
    assert all == held + (all - held) && |all| == |held| + |all - held|;
    SlotNumbers(held, n / 8);
    assert |held| == n / 8 <==> all - held == {};
  }

  lemma {:induction false} SlotNumbers(held: set<nat>, m: nat)
    ensures AllSlots(m) - held == {} <==> forall g: nat | g < m :: 8 * g in held
  {
    if m > 0 {
      SlotNumbers(held, m - 1);
      var last := 8 * (m - 1);
      assert last in AllSlots(m) && AllSlots(m) == AllSlots(m - 1) + {last};
      if AllSlots(m) - held == {} {
        assert last !in AllSlots(m) - held;
        assert AllSlots(m - 1) - held == {};
      } else {
        var x :| x in AllSlots(m) - held;
        assert x == last || x in AllSlots(m - 1) - held;
      }
    }
  }

  /** A store succeeds exactly while fewer pages are held than the device has room for. */
  lemma StoreSucceeds(b: seq<bool>, held: set<nat>, r: Option<nat>)
    requires SlotsIn(held, |b|) && GroupsMatch(b, held) && FirstFit(b, 0, 8, false, r)
    ensures r.Some? <==> |held| < |b| / 8
  {
    FirstFitIsAligned(b, held, r);
    SlotLeft(held, |b|);
    if r.Some? { assert 8 * (r.value / 8) !in held; }
  }

  lemma StoreMatches(b: seq<bool>, held: set<nat>, k: nat)
    requires GroupsMatch(b, held) && k % 8 == 0 && k + 8 <= |b|
    ensures GroupsMatch(Filled(b, k, 8, true), held + {k})
  {}

  lemma FreeMatches(b: seq<bool>, held: set<nat>, k: nat)
    requires GroupsMatch(b, held) && k % 8 == 0 && k + 8 <= |b|
    ensures GroupsMatch(Filled(b, k, 8, false), held - {k})
  {}

  lemma Disjoint(k: nat, m: nat)
    requires k % 8 == 0 && m % 8 == 0 && k != m
    ensures k + 8 <= m || m + 8 <= k
  {}

  ghost predicate OnDisk(device: seq<Sector>, k: nat, p: Page) {
    k + 8 <= |device| && forall ofs | 0 <= ofs < 8 :: device[k + ofs] == Part(p, ofs)
  }

  class SwapTable {
    const used: BitmapObject
    var device: seq<Sector>
    /** The pages stored and not yet freed, by the index `vm_swap_store` returned. */
    ghost var held: map<nat, Page>

    ghost predicate Valid()
      reads this, used.bits
    {
      && used.Valid() && used.bitCnt == |device|
      && SlotsIn(held.Keys, |device|)
      && GroupsMatch(used.View(), held.Keys)
      && forall k | k in held :: OnDisk(device, k, held[k])
    }

    constructor (size: nat)
      ensures Valid() && held == map[] && |device| == size
      ensures fresh(used.bits)
    {
      used := new BitmapObject(size);
      device := seq(size, _ => seq(512, _ => 0));
      held := map[];
    }

    /** `vm_swap_store`; the result is `None` where the source's assertion would fail. */
    method Store(p: Page) returns (r: Option<nat>)
      requires Valid()
      modifies this, used.bits
      ensures Valid()
      ensures r.Some? <==> |old(held)| < |device| / 8
      ensures |device| == old(|device|)
      ensures r.None? ==> held == old(held)
      ensures r.Some? ==> r.value !in old(held) && held == old(held)[r.value := p]
    {
      r := used.ScanAndFlip(0, 8, false);
      assert |held| == |held.Keys|;
      StoreSucceeds(old(used.View()), held.Keys, r);
      FirstFitIsAligned(old(used.View()), held.Keys, r);
      if r.Some? {
        StoreMatches(old(used.View()), held.Keys, r.value);
        WriteSlot(r.value, p);
        held := held[r.value := p];
        assert held.Keys == old(held).Keys + {r.value};
      }
    }

    /** Writes the page sector by sector; every other slot keeps its page. */
    method WriteSlot(index: nat, p: Page)
      requires index + 8 <= |device| && index % 8 == 0
      modifies this`device
      ensures |device| == old(|device|) && OnDisk(device, index, p)
      ensures forall k, q | k % 8 == 0 && k != index && OnDisk(old(device), k, q) :: OnDisk(device, k, q)
    {
      ghost var before := device;
      var ofs := 0;
      while ofs < 8
        invariant 0 <= ofs <= 8 && |device| == |before|
        invariant forall i | 0 <= i < ofs :: device[index + i] == Part(p, i)
        invariant forall i | 0 <= i < |before| && !(index <= i < index + 8) :: device[i] == before[i]
      {
        device := device[index + ofs := Part(p, ofs)];
        ofs := ofs + 1;
      }
      forall k: nat, q: Page | k % 8 == 0 && k != index && OnDisk(before, k, q)
        ensures OnDisk(device, k, q)
      {
        Disjoint(k, index);
        forall i | 0 <= i < 8 ensures device[k + i] == Part(q, i) {
          assert before[k + i] == Part(q, i);
        }
      }
    }

    /** `vm_swap_load`: the page that was stored. */
    method Load(index: nat) returns (p: Page)
      requires Valid() && index in held
      ensures p == held[index]
    {
      ghost var page := held[index];
      var s: seq<Byte> := [];
      var ofs := 0;
      assert OnDisk(device, index, page);
      while ofs < 8
        invariant 0 <= ofs <= 8
        invariant s == page[..ofs * 512]
      {
        assert device[index + ofs] == Part(page, ofs);
        s := s + device[index + ofs];
        ofs := ofs + 1;
      }
      p := s;
    }

    method Free(index: nat)
      requires Valid() && index in held
      modifies this, used.bits
      ensures Valid() && held == old(held) - {index} && device == old(device)
    {
      ghost var b := used.View();
      FreeMatches(b, held.Keys, index);
      var ofs := 0;
      while ofs < 8
        invariant 0 <= ofs <= 8
        invariant used.View() == Filled(b, index, ofs, false)
        modifies used.bits
      {
        used.Reset(index + ofs);
        assert Filled(b, index, ofs, false)[index + ofs := false] == Filled(b, index, ofs + 1, false);
        ofs := ofs + 1;
      }
      held := held - {index};
    }
  }
}
