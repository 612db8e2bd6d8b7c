/** Addresses and page table entries (src/threads/vaddr.h, src/threads/pte.h; the entry format is
    that of section 3.7.6 of the IA-32 manual, volume 3A). */
module Pte {
  import opened Nonlinear
  import opened Bits

  const PHYS_BASE: nat := 0xc000_0000

  const PTE_ADDR: nat := 0xffff_f000
  const PTE_P: nat := 0x1
  const PTE_W: nat := 0x2
  const PTE_U: nat := 0x4
  const PTE_A: nat := 0x20
  const PTE_D: nat := 0x40

  /** Page offset, page number, and the indexes into the directory and a table. */
  function PgOfs(va: nat): nat { And(va, 0xfff) }

  function PgNo(va: nat): nat { va / 4096 }

  function PdNo(va: nat): nat { va / 0x40_0000 }

  function PtNo(va: nat): nat { And(va, 0x3f_f000) / 4096 }

  /** A page of the kernel's 1:1 mapping. */
  predicate IsKernelPage(k: nat) {
    PHYS_BASE <= k < 0x1_0000_0000 && k % 4096 == 0
  }

  function Vtop(k: nat): nat
    requires k >= PHYS_BASE
  {
    k - PHYS_BASE
  }

  function Ptov(p: nat): nat { p + PHYS_BASE }

  function PdeCreate(pt: nat): nat
    requires IsKernelPage(pt)
  {
    Or(Or(Or(Vtop(pt), PTE_U), PTE_P), PTE_W)
  }

  function PteCreateUser(page: nat, writable: bool): nat
    requires IsKernelPage(page)
  {
    Or(Or(Or(Vtop(page), PTE_P), if writable then PTE_W else 0), PTE_U)
  }

  /** `pde_get_pt` and `pte_get_page` */
  function GetPage(w: nat): nat { Ptov(And(w, PTE_ADDR)) }

  function Flag(w: nat, f: nat): bool { And(w, f) != 0 }

  // ---------------------------------------------------------------- splitting words

  /** Masks that reach from bit `k` up to bit `k + n` select those bits in place. */
  lemma {:induction false} AndHigh(x: nat, mask: nat, k: nat, n: nat)
    requires mask == (Pow2(n) - 1) * Pow2(k)
    ensures Pow2(k) > 0 && Pow2(n) > 0
    ensures And(x, mask) == x / Pow2(k) % Pow2(n) * Pow2(k)
  {
    PowPositive(k);
    PowPositive(n);
    if k == 0 {
      MaskIsMod(x, n);
    } else {
      var h: nat := MulNat(Pow2(n) - 1, Pow2(k - 1));
      Assoc(2, Pow2(n) - 1, Pow2(k - 1));
      AndHigh(x / 2, h, k - 1, n);
      AndEven(x, h);
      DivDiv(x, 2, Pow2(k - 1));
      Assoc(2, x / Pow2(k) % Pow2(n), Pow2(k - 1));
    }
  }

  function MulNat(a: nat, b: nat): (r: nat)
    ensures r == a * b
  {
    MulLe(0, a, b);
    a * b
  }

  lemma AndEven(x: nat, h: nat)
    ensures And(x, 2 * h) == 2 * And(x / 2, h)
  {
    assert (2 * h) % 2 == 0 && (2 * h) / 2 == h;
    assert (x % 2) * ((2 * h) % 2) == 0;
  }

  /** The low bits of a word can be set and cleared by themselves. */
  lemma {:induction false} OrLow(a: nat, f: nat, g: nat, k: nat)
    requires f < Pow2(k) && g < Pow2(k)
    ensures Or(f, g) < Pow2(k) && Or(a * Pow2(k) + f, g) == a * Pow2(k) + Or(f, g)
  {
    if k == 0 {
      assert f == 0 && g == 0;
    } else {
      var p := Pow2(k - 1);
      OrLow(a, f / 2, g / 2, k - 1);
      Halves(a, f, k);
    }
  }

  lemma {:induction false} AndNotLow(a: nat, f: nat, g: nat, k: nat)
    requires f < Pow2(k) && g < Pow2(k)
    ensures AndNot(f, g) < Pow2(k) && AndNot(a * Pow2(k) + f, g) == a * Pow2(k) + AndNot(f, g)
  {
    if k == 0 {
      assert f == 0 && g == 0;
      AndNotZero(a);
    } else {
      AndNotLow(a, f / 2, g / 2, k - 1);
      Halves(a, f, k);
    }
  }

  lemma {:induction false} AndNotZero(x: nat)
    ensures AndNot(x, 0) == x
  {
    if x > 0 { AndNotZero(x / 2); }
  }

  lemma Halves(a: nat, f: nat, k: nat)
    requires k > 0
    ensures (a * Pow2(k) + f) / 2 == a * Pow2(k - 1) + f / 2 && (a * Pow2(k) + f) % 2 == f % 2
  {
    Assoc(a, 2, Pow2(k - 1));
    var p := a * Pow2(k - 1);
    assert a * Pow2(k) == 2 * p;
  }

  // ---------------------------------------------------------------- what the parts mean

  lemma Powers()
    ensures Pow2(10) == 1024 && Pow2(12) == 4096 && Pow2(20) == 0x10_0000
  {
    assert Pow2(10) == 1024;
    PowSum(10, 10);
  }

  lemma OffsetBits(va: nat)
    ensures PgOfs(va) == va % 4096
  {
    Powers();
    MaskIsMod(va, 12);
  }

  /** The directory and table indexes are the two halves of the page number. */
  lemma IndexBits(va: nat)
    ensures PdNo(va) == PgNo(va) / 1024 && PtNo(va) == PgNo(va) % 1024
  {
    Powers();
    AndHigh(va, 0x3f_f000, 12, 10);
  }

  lemma AddressBits(w: nat)
    requires w < 0x1_0000_0000
    ensures And(w, PTE_ADDR) == w / 4096 * 4096
  {
    Powers();
    AndHigh(w, PTE_ADDR, 12, 20);
  }

  // ---------------------------------------------------------------- entries

  /** An entry is its page and its flags, side by side. */
  lemma CreatedWords(page: nat, writable: bool)
    requires IsKernelPage(page)
    ensures PteCreateUser(page, writable) == Vtop(page) + (if writable then 7 else 5)
    ensures PdeCreate(page) == Vtop(page) + 7
  {
    CreatedPde(page);
    SmallOrs();
    var p := Vtop(page);
    Low(p, 0, 1, 1);
    if writable { Low(p, 1, 2, 3); Low(p, 3, 4, 7); } else { Low(p, 1, 0, 1); Low(p, 1, 4, 5); }
  }

  lemma CreatedPde(page: nat)
    requires IsKernelPage(page)
    ensures PdeCreate(page) == Vtop(page) + 7
  {
    SmallOrs();
    var p := Vtop(page);
    Low(p, 0, 4, 4);
    Low(p, 4, 1, 5);
    Low(p, 5, 2, 7);
  }

  lemma SmallOrs()
    ensures Or(0, 1) == 1 && Or(1, 2) == 3 && Or(3, 4) == 7 && Or(1, 0) == 1 && Or(1, 4) == 5
    ensures Or(0, 4) == 4 && Or(4, 1) == 5 && Or(5, 2) == 7
  {}

  lemma Low(p: nat, f: nat, g: nat, r: nat)
    requires p % 4096 == 0 && f < 8 && g < 8 && r == Or(f, g)
    ensures Or(p + f, g) == p + r
  {
    Powers();
    OrLow(p / 4096, f, g, 12);
  }

  /** What is put into an entry can be read from it again. */
  lemma PteRoundTrip(page: nat, writable: bool)
    requires IsKernelPage(page)
    ensures var w := PteCreateUser(page, writable);
            && 0 < w < 0x1_0000_0000 && GetPage(w) == page
            && Flag(w, PTE_P) && Flag(w, PTE_U) && (Flag(w, PTE_W) <==> writable)
            && !Flag(w, PTE_A) && !Flag(w, PTE_D)
    ensures var w := PdeCreate(page); 0 < w < 0x1_0000_0000 && GetPage(w) == page && Flag(w, PTE_P)
  {
    CreatedWords(page, writable);
    EntryParts(PteCreateUser(page, writable), Vtop(page), if writable then 7 else 5);
    EntryParts(PdeCreate(page), Vtop(page), 7);
  }

  lemma EntryParts(w: nat, p: nat, f: nat)
    requires w == p + f && p % 4096 == 0 && p < 0x4000_0000 && (f == 5 || f == 7)
    ensures GetPage(w) == Ptov(p) && Flag(w, PTE_P) && Flag(w, PTE_U) && (Flag(w, PTE_W) <==> f == 7)
    ensures !Flag(w, PTE_A) && !Flag(w, PTE_D)
  {
    Split(w, p, f);
    SmallFlags(w, f);
    assert GetPage(w) == Ptov(p) by { AddressBits(w); }
  }

  lemma Split(w: nat, p: nat, f: nat)
    requires w == p + f && p % 4096 == 0 && f < 128
    ensures w % 128 == f && w / 4096 * 4096 == p
  {
    var q := p / 4096;
    assert p == 4096 * q;
    assert w == 128 * (32 * q) + f;
  }

  lemma SmallFlags(w: nat, f: nat)
    requires w % 128 == f && (f == 5 || f == 7)
    ensures Flag(w, PTE_P) && Flag(w, PTE_U) && (Flag(w, PTE_W) <==> f == 7)
    ensures !Flag(w, PTE_A) && !Flag(w, PTE_D)
  {
    FlagBits(w);
    var q := w / 128;
    assert w == 128 * q + f;
  }

  lemma FlagBits(w: nat)
    ensures Flag(w, PTE_P) <==> w % 2 == 1
    ensures Flag(w, PTE_W) <==> w / 2 % 2 == 1
    ensures Flag(w, PTE_U) <==> w / 4 % 2 == 1
    ensures Flag(w, PTE_A) <==> w / 32 % 2 == 1
    ensures Flag(w, PTE_D) <==> w / 64 % 2 == 1
  {
    assert Pow2(0) == PTE_P && Pow2(1) == PTE_W && Pow2(2) == PTE_U && Pow2(5) == PTE_A && Pow2(6) == PTE_D;
    TestMask(w, 0);
    TestMask(w, 1);
    TestMask(w, 2);
    TestMask(w, 5);
    TestMask(w, 6);
    BitIsQuotient(w, 1);
    BitIsQuotient(w, 2);
    BitIsQuotient(w, 5);
    BitIsQuotient(w, 6);
  }

  lemma {:induction false} BitIsQuotient(x: nat, k: nat)
    ensures Pow2(k) > 0 && (Bit(x, k) <==> x / Pow2(k) % 2 == 1)
  {
    PowPositive(k);
    if k > 0 {
      BitIsQuotient(x / 2, k - 1);
      DivDiv(x, 2, Pow2(k - 1));
    }
  }

  /** Setting a flag changes nothing else in the entry. */
  lemma SetFlag(w: nat, i: nat)
    requires w < 0x1_0000_0000 && i < 12
    ensures var w' := Or(w, Pow2(i)); 0 < w' < 0x1_0000_0000 && GetPage(w') == GetPage(w)
    ensures forall j: nat :: Flag(Or(w, Pow2(i)), Pow2(j)) <==> Flag(w, Pow2(j)) || j == i
  {
    SetPage(w, i);
    forall j: nat ensures Flag(Or(w, Pow2(i)), Pow2(j)) <==> Flag(w, Pow2(j)) || j == i { SetBit(w, i, j); }
  }

  lemma SetBit(w: nat, i: nat, j: nat)
    ensures Flag(Or(w, Pow2(i)), Pow2(j)) <==> Flag(w, Pow2(j)) || j == i
  {
    TestMask(w, j);
    TestMask(Or(w, Pow2(i)), j);
    BitOr(w, Pow2(i), j);
    BitPow2(i, j);
  }

  lemma SetPage(w: nat, i: nat)
    requires w < 0x1_0000_0000 && i < 12
    ensures var w' := Or(w, Pow2(i)); 0 < w' < 0x1_0000_0000 && GetPage(w') == GetPage(w)
  {
    Powers();
    PowLess(i, 12);
    PowPositive(i);
    OrLow(w / 4096, w % 4096, Pow2(i), 12);
    SamePage(w, Or(w, Pow2(i)), Or(w % 4096, Pow2(i)));
    OrPositive(w, Pow2(i));
  }

  lemma OrPositive(x: nat, y: nat)
    requires y > 0
    ensures Or(x, y) > 0
  {
    if x > 0 && y > 1 { OrPositive(x / 2, y / 2); }
  }

  lemma SamePage(w: nat, w': nat, f: nat)
    requires w < 0x1_0000_0000 && w' == w / 4096 * 4096 + f && f < 4096
    ensures w' < 0x1_0000_0000 && GetPage(w') == GetPage(w)
  {
    AddressBits(w);
    AddressBits(w');
  }

  /** And so does clearing one. */
  lemma ClearFlag(w: nat, i: nat)
    requires w < 0x1_0000_0000 && i < 12
    ensures var w' := AndNot(w, Pow2(i)); w' < 0x1_0000_0000 && GetPage(w') == GetPage(w)
    ensures forall j: nat :: Flag(AndNot(w, Pow2(i)), Pow2(j)) <==> Flag(w, Pow2(j)) && j != i
  {
    ClearPage(w, i);
    forall j: nat ensures Flag(AndNot(w, Pow2(i)), Pow2(j)) <==> Flag(w, Pow2(j)) && j != i { ClearBit(w, i, j); }
  }

  lemma ClearBit(w: nat, i: nat, j: nat)
    ensures Flag(AndNot(w, Pow2(i)), Pow2(j)) <==> Flag(w, Pow2(j)) && j != i
  {
    TestMask(w, j);
    TestMask(AndNot(w, Pow2(i)), j);
    BitAndNot(w, Pow2(i), j);
    BitPow2(i, j);
  }

  lemma ClearPage(w: nat, i: nat)
    requires w < 0x1_0000_0000 && i < 12
    ensures var w' := AndNot(w, Pow2(i)); w' < 0x1_0000_0000 && GetPage(w') == GetPage(w)
  {
    Powers();
    PowLess(i, 12);
    AndNotLow(w / 4096, w % 4096, Pow2(i), 12);
    SamePage(w, AndNot(w, Pow2(i)), AndNot(w % 4096, Pow2(i)));
  }

  lemma {:induction false} PowLess(i: nat, k: nat)
    requires i < k
    ensures Pow2(i) < Pow2(k)
  {
    PowPositive(k - 1);
    if i < k - 1 { PowLess(i, k - 1); }
  }
}
