/** Two-level page tables (src/userprog/pagedir.c) as a partial map from user pages to frames. */
module PageDir {
  import opened Common
  import opened Nonlinear
  import opened Bits
  import opened Pte

  const ENTRIES: nat := 1024
  /** pd_no (PHYS_BASE), and the number of user pages */
  const USER_TABLES: nat := 768
  const USER_PAGES: nat := 0xc_0000
  /** The number of all pages */
  const PAGES: nat := 0x10_0000

  const ADDRESSES: nat := 0x1_0000_0000

  /** The directory, and the page tables by kernel address. */
  datatype Pd = Pd(dir: seq<nat>, tables: map<nat, seq<nat>>)

  predicate Present(w: nat) { Flag(w, PTE_P) }

  ghost predicate TableInv(pd: Pd, i: nat)
    requires i < |pd.dir|
  {
    pd.dir[i] != 0 ==>
      && Present(pd.dir[i]) && GetPage(pd.dir[i]) in pd.tables
      && forall j: nat | j < |pd.dir| && pd.dir[j] != 0
           && GetPage(pd.dir[j]) == GetPage(pd.dir[i]) :: j == i
  }

  ghost predicate Inv(pd: Pd) {
    && |pd.dir| == ENTRIES
    && (forall i: nat {:trigger TableInv(pd, i)} | i < ENTRIES :: TableInv(pd, i))
    && (forall t | t in pd.tables :: |pd.tables[t]| == ENTRIES)
    && (forall t, k | t in pd.tables && 0 <= k < |pd.tables[t]| :: pd.tables[t][k] < 0x1_0000_0000)
  }

  /** The entry of page `v`, if there is a table for it. */
  function Entry(pd: Pd, v: nat): Option<nat>
    requires |pd.dir| == ENTRIES && v < PAGES
  {
    var w := pd.dir[v / ENTRIES];
    if w == 0 || GetPage(w) !in pd.tables || |pd.tables[GetPage(w)]| != ENTRIES then None
    else Some(pd.tables[GetPage(w)][v % ENTRIES])
  }

  /** The entry of a page that is mapped. */
  function Mapped(pd: Pd, v: nat): Option<nat>
    requires |pd.dir| == ENTRIES && v < PAGES
  {
    var e := Entry(pd, v);
    if e.Some? && Present(e.value) then e else None
  }

  // ---------------------------------------------------------------- steps

  /** A new, zeroed table for directory entry `i`. */
  function AddTable(pd: Pd, i: nat, page: nat): Pd
    requires i < |pd.dir| && IsKernelPage(page)
  {
    Pd(pd.dir[i := PdeCreate(page)], pd.tables[page := seq(ENTRIES, _ => 0)])
  }

  function SetEntry(pd: Pd, v: nat, w: nat): Pd
    requires |pd.dir| == ENTRIES && v < PAGES && Entry(pd, v).Some?
  {
    var t := GetPage(pd.dir[v / ENTRIES]);
    var row: seq<nat> := pd.tables[t];
    pd.(tables := pd.tables[t := row[v % ENTRIES := w]])
  }

  /** Writing an entry affects no other page, also not through another directory entry. */
  lemma SetEntryOnly(pd: Pd, v: nat, w: nat)
    requires Inv(pd) && v < PAGES && Entry(pd, v).Some? && w < 0x1_0000_0000
    ensures var pd' := SetEntry(pd, v, w);
            && Inv(pd') && Entry(pd', v) == Some(w)
            && forall u: nat {:trigger Entry(pd', u)} | u < PAGES && u != v :: Entry(pd', u) == Entry(pd, u)
  {
    var pd' := SetEntry(pd, v, w);
    var t := GetPage(pd.dir[v / ENTRIES]);
    forall i: nat | i < ENTRIES ensures TableInv(pd', i) { assert TableInv(pd, i); }
    forall u: nat | u < PAGES && u != v ensures Entry(pd', u) == Entry(pd, u) {
      assert TableInv(pd, v / ENTRIES) && TableInv(pd, u / ENTRIES);
      SamePageNumber(u, v);
    }
  }

  lemma SamePageNumber(u: nat, v: nat)
    ensures u / ENTRIES == v / ENTRIES && u % ENTRIES == v % ENTRIES ==> u == v
  {}

  /** A new table maps nothing, so that no page changes. */
  lemma AddTableMaps(pd: Pd, i: nat, t: nat)
    requires Inv(pd) && i < USER_TABLES && pd.dir[i] == 0 && IsKernelPage(t) && t !in pd.tables
    ensures var pd' := AddTable(pd, i, t);
            && Inv(pd')
            && forall u: nat {:trigger Entry(pd', u)} | u < PAGES ::
                 Entry(pd', u) == if u / ENTRIES == i then Some(0) else Entry(pd, u)
  {
    var pd' := AddTable(pd, i, t);
    PteRoundTrip(t, true);
    forall j: nat | j < ENTRIES ensures TableInv(pd', j) {
      assert TableInv(pd, j);
      forall k: nat | k < ENTRIES && pd'.dir[j] != 0 && pd'.dir[k] != 0
                      && GetPage(pd'.dir[k]) == GetPage(pd'.dir[j])
        ensures k == j
      {
        assert TableInv(pd, k);
      }
    }
    forall u: nat | u < PAGES ensures Entry(pd', u) == if u / ENTRIES == i then Some(0) else Entry(pd, u) {
      assert TableInv(pd, u / ENTRIES);
    }
  }

  // ---------------------------------------------------------------- destruction

  /** The frames that the first `n` entries of a table map. */
  function Frames(row: seq<nat>, n: nat): seq<nat>
    requires n <= |row|
  {
    if n == 0 then []
    else Frames(row, n - 1) + (if Present(row[n - 1]) then [GetPage(row[n - 1])] else [])
  }

  /** What is freed for the first `i` directory entries. */
  function Freed(pd: Pd, i: nat): seq<nat>
    requires i <= |pd.dir|
  {
    if i == 0 then [] else
    var w := pd.dir[i - 1];
    Freed(pd, i - 1)
    + (if Present(w) && GetPage(w) in pd.tables
       then Frames(pd.tables[GetPage(w)], |pd.tables[GetPage(w)]|) + [GetPage(w)] else [])
  }

  /** Some page below `n` is mapped to the frame `x`. */
  ghost predicate FrameBelow(pd: Pd, n: nat, x: nat)
    requires |pd.dir| == ENTRIES && n <= USER_PAGES
  {
    exists v: nat :: v < n && IsFrame(pd, v, x)
  }

  ghost predicate IsFrame(pd: Pd, v: nat, x: nat)
    requires |pd.dir| == ENTRIES && v < USER_PAGES
  {
    Mapped(pd, v).Some? && GetPage(Mapped(pd, v).value) == x
  }

  /** One of the first `i` directory entries points to the table `x`. */
  ghost predicate TableBelow(pd: Pd, i: nat, x: nat)
    requires i <= |pd.dir|
  {
    exists j: nat :: j < i && IsTable(pd, j, x)
  }

  ghost predicate IsTable(pd: Pd, j: nat, x: nat)
    requires j < |pd.dir|
  {
    pd.dir[j] != 0 && GetPage(pd.dir[j]) == x
  }

  /** No frame is mapped twice, and no frame is a page table. */
  ghost predicate Distinct(pd: Pd)
    requires |pd.dir| == ENTRIES
  {
    && (forall u: nat, v: nat, x: nat {:trigger IsFrame(pd, u, x), IsFrame(pd, v, x)} |
          u < USER_PAGES && v < USER_PAGES && IsFrame(pd, u, x) && IsFrame(pd, v, x) :: u == v)
    && (forall u: nat, x: nat {:trigger IsFrame(pd, u, x)} | u < USER_PAGES && IsFrame(pd, u, x) :: x !in pd.tables)
  }

  lemma {:induction false} FramesAre(row: seq<nat>, n: nat, x: nat)
    requires n <= |row|
    ensures x in Frames(row, n) <==> exists k :: 0 <= k < n && Present(row[k]) && GetPage(row[k]) == x
  {
    if n > 0 { FramesAre(row, n - 1, x); }
  }

  lemma {:induction false} FramesOnce(row: seq<nat>, n: nat)
    requires n <= |row|
    requires forall j, k | 0 <= j < k < n && Present(row[j]) && Present(row[k]) :: GetPage(row[j]) != GetPage(row[k])
    ensures NoDup(Frames(row, n))
  {
    if n > 0 {
      FramesOnce(row, n - 1);
      if Present(row[n - 1]) {
        FramesAre(row, n - 1, GetPage(row[n - 1]));
        Appended(Frames(row, n - 1), GetPage(row[n - 1]));
      }
    }
  }

  lemma Appended(s: seq<nat>, x: nat)
    requires NoDup(s) && x !in s
    ensures NoDup(s + [x])
  {}

  lemma Joined(s: seq<nat>, t: seq<nat>)
    requires NoDup(s) && NoDup(t) && forall x | x in s :: x !in t
    ensures NoDup(s + t)
  {
    forall j, k | 0 <= j < |s| && 0 <= k < |t| ensures s[j] != t[k] { assert s[j] in s && t[k] in t; }
  }

  /** The frames of table `i` are those mapped by its 1024 pages. */
  lemma RowFrames(pd: Pd, i: nat, x: nat)
    requires Inv(pd) && i < USER_TABLES && pd.dir[i] != 0
    ensures GetPage(pd.dir[i]) in pd.tables
    ensures x in Frames(pd.tables[GetPage(pd.dir[i])], ENTRIES) <==>
              exists v: nat :: ENTRIES * i <= v < ENTRIES * i + ENTRIES && IsFrame(pd, v, x)
  {
    assert TableInv(pd, i);
    var row := pd.tables[GetPage(pd.dir[i])];
    FramesAre(row, ENTRIES, x);
    if x in Frames(row, ENTRIES) {
      var k :| 0 <= k < ENTRIES && Present(row[k]) && GetPage(row[k]) == x;
      PageAt(i, k);
      assert IsFrame(pd, ENTRIES * i + k, x);
    }
    if v: nat :| ENTRIES * i <= v < ENTRIES * i + ENTRIES && IsFrame(pd, v, x) {
      PageAt(i, v - ENTRIES * i);
      assert row[v % ENTRIES] == Mapped(pd, v).value;
    }
  }

  lemma PageAt(i: nat, k: nat)
    requires k < ENTRIES
    ensures (ENTRIES * i + k) / ENTRIES == i && (ENTRIES * i + k) % ENTRIES == k
  {}

  lemma ZeroAbsent()
    ensures !Present(0)
  {}

  /** What is freed: the frames and the tables. */
  lemma {:induction false} FreedAre(pd: Pd, i: nat, x: nat)
    requires Inv(pd) && i <= USER_TABLES
    ensures x in Freed(pd, i) <==> FrameBelow(pd, ENTRIES * i, x) || TableBelow(pd, i, x)
  {
    if i > 0 {
      FreedAre(pd, i - 1, x);
      assert TableInv(pd, i - 1);
      ZeroAbsent();
      if pd.dir[i - 1] != 0 {
        RowFrames(pd, i - 1, x);
        MoreBelow(pd, i, x);
      } else {
        SameBelow(pd, i, x);
      }
    }
  }

  lemma MoreBelow(pd: Pd, i: nat, x: nat)
    requires Inv(pd) && 0 < i <= USER_TABLES && pd.dir[i - 1] != 0
    ensures FrameBelow(pd, ENTRIES * i, x) <==>
              (FrameBelow(pd, ENTRIES * (i - 1), x)
               || exists v: nat :: ENTRIES * (i - 1) <= v < ENTRIES * (i - 1) + ENTRIES && IsFrame(pd, v, x))
    ensures TableBelow(pd, i, x) <==> TableBelow(pd, i - 1, x) || x == GetPage(pd.dir[i - 1])
  {
    assert IsTable(pd, i - 1, GetPage(pd.dir[i - 1]));
  }

  lemma SameBelow(pd: Pd, i: nat, x: nat)
    requires Inv(pd) && 0 < i <= USER_TABLES && pd.dir[i - 1] == 0
    ensures FrameBelow(pd, ENTRIES * i, x) <==> FrameBelow(pd, ENTRIES * (i - 1), x)
    ensures TableBelow(pd, i, x) <==> TableBelow(pd, i - 1, x)
  {
    forall v: nat | ENTRIES * (i - 1) <= v < ENTRIES * i ensures !IsFrame(pd, v, x) {
      assert v / ENTRIES == i - 1;
    }
  }

  /** Every mapped frame and every table is freed once. */
  lemma {:induction false} FreedOnce(pd: Pd, i: nat)
    requires Inv(pd) && Distinct(pd) && i <= USER_TABLES
    ensures NoDup(Freed(pd, i))
  {
    if i > 0 {
      FreedOnce(pd, i - 1);
      assert TableInv(pd, i - 1);
      ZeroAbsent();
      if pd.dir[i - 1] != 0 {
        var t := GetPage(pd.dir[i - 1]);
        var frames := Frames(pd.tables[t], ENTRIES);
        RowOnce(pd, i - 1);
        Appended(frames, t);
        forall x | x in Freed(pd, i - 1) ensures x !in frames + [t] { FreedBefore(pd, i, x); }
        Joined(Freed(pd, i - 1), frames + [t]);
      }
    }
  }

  lemma RowOnce(pd: Pd, i: nat)
    requires Inv(pd) && Distinct(pd) && i < USER_TABLES && pd.dir[i] != 0
    ensures var t := GetPage(pd.dir[i]);
            t in pd.tables && NoDup(Frames(pd.tables[t], ENTRIES)) && t !in Frames(pd.tables[t], ENTRIES)
  {
    assert TableInv(pd, i);
    var t := GetPage(pd.dir[i]);
    var row := pd.tables[t];
    forall k: nat | k < ENTRIES && Present(row[k]) ensures IsFrame(pd, ENTRIES * i + k, GetPage(row[k])) {
      PageAt(i, k);
    }
    forall j: nat, k: nat | j < k < ENTRIES && Present(row[j]) && Present(row[k])
      ensures GetPage(row[j]) != GetPage(row[k])
    {
      assert IsFrame(pd, ENTRIES * i + j, GetPage(row[j])) && IsFrame(pd, ENTRIES * i + k, GetPage(row[k]));
    }
    FramesOnce(row, ENTRIES);
    RowFrames(pd, i, t);
  }

  lemma FreedBefore(pd: Pd, i: nat, x: nat)
    requires Inv(pd) && Distinct(pd) && 0 < i <= USER_TABLES && pd.dir[i - 1] != 0 && x in Freed(pd, i - 1)
    ensures var t := GetPage(pd.dir[i - 1]); t in pd.tables && x !in Frames(pd.tables[t], ENTRIES) && x != t
  {
    assert TableInv(pd, i - 1);
    FreedAre(pd, i - 1, x);
    RowFrames(pd, i - 1, x);
    if FrameBelow(pd, ENTRIES * (i - 1), x) {
      var u: nat :| u < ENTRIES * (i - 1) && IsFrame(pd, u, x);
      assert x !in pd.tables;
    } else {
      var j: nat :| j < i - 1 && IsTable(pd, j, x);
      assert TableInv(pd, j) && x in pd.tables;
    }
  }

  /** No table of the kernel is a frame or a table of the user. */
  lemma KernelTableKept(pd: Pd, i: nat)
    requires Inv(pd) && Distinct(pd) && USER_TABLES <= i < ENTRIES && pd.dir[i] != 0
    ensures var x := GetPage(pd.dir[i]);
            x in pd.tables && !FrameBelow(pd, USER_PAGES, x) && !TableBelow(pd, USER_TABLES, x)
  {
    assert TableInv(pd, i);
    forall j: nat | j < USER_TABLES ensures !IsTable(pd, j, GetPage(pd.dir[i])) { assert TableInv(pd, j); }
  }

  // ---------------------------------------------------------------- the operations

  /** A page that `palloc_get_page` may hand out for a table. */
  predicate Spare(pd: Pd, page: Option<nat>) {
    page.Some? ==> IsKernelPage(page.value) && page.value !in pd.tables
  }

  /** Every other page is mapped as before. */
  ghost predicate OthersKept(pd: Pd, pd': Pd, v: nat)
    requires |pd.dir| == ENTRIES && |pd'.dir| == ENTRIES
  {
    forall u: nat {:trigger Mapped(pd', u)} | u < PAGES && u != v :: Mapped(pd', u) == Mapped(pd, u)
  }

  lemma AddTableKeeps(pd: Pd, i: nat, t: nat, v: nat)
    requires Inv(pd) && i < USER_TABLES && pd.dir[i] == 0 && IsKernelPage(t) && t !in pd.tables
    ensures Inv(AddTable(pd, i, t)) && OthersKept(pd, AddTable(pd, i, t), v)
  {
    AddTableMaps(pd, i, t);
    ZeroAbsent();
    var pd' := AddTable(pd, i, t);
    forall u: nat | u < PAGES ensures Mapped(pd', u) == Mapped(pd, u) {
      assert Entry(pd', u) == if u / ENTRIES == i then Some(0) else Entry(pd, u);
    }
  }

  class PageDirectory {
    /** The kernel address of the directory itself. */
    const self: nat
    var dir: seq<nat>
    var tables: map<nat, seq<nat>>

    function View(): Pd
      reads this
    {
      Pd(dir, tables)
    }

    ghost predicate Valid()
      reads this
    {
      Inv(View())
    }

    /** `pagedir_create`: a copy of the kernel's directory, with its tables and no user tables. */
    constructor (self: nat, init: Pd)
      requires Inv(init) && forall i | 0 <= i < USER_TABLES :: init.dir[i] == 0
      ensures Valid() && this.self == self && View() == init
      ensures forall v: nat | v < USER_PAGES :: Mapped(View(), v) == None
    {
      this.self := self;
      dir := init.dir;
      tables := init.tables;
    }

    /** `lookup_page`: makes sure that there is an entry for `va`, or says that there is none. */
    method LookupPage(va: nat, create: bool, page: Option<nat>) returns (found: bool)
      requires Valid() && va < ADDRESSES && (create ==> va < PHYS_BASE) && Spare(View(), page)
      modifies this
      ensures Valid() && found == Entry(View(), PgNo(va)).Some?
      ensures found == (old(Entry(View(), PgNo(va))).Some? || (create && page.Some?))
      ensures !found || old(Entry(View(), PgNo(va))).Some? ==> View() == old(View())
      ensures OthersKept(old(View()), View(), PgNo(va))
      ensures found && old(Entry(View(), PgNo(va))).None? ==> Entry(View(), PgNo(va)) == Some(0)
    {
      IndexBits(va);
      var i := PdNo(va);
      assert TableInv(View(), i);
      if dir[i] == 0 {
        if !create || page.None? {
          return false;
        }
        AddTableKeeps(View(), i, page.value, PgNo(va));
        AddTableMaps(View(), i, page.value);
        dir := dir[i := PdeCreate(page.value)];
        tables := tables[page.value := seq(ENTRIES, _ => 0)];
      }
      return true;
    }

    /** `*pte` and `*pte = w` for the entry that `lookup_page` found. */
    function Read(va: nat): (w: nat)
      reads this
      requires |dir| == ENTRIES && va < ADDRESSES && Entry(View(), PgNo(va)).Some?
      ensures w == Entry(View(), PgNo(va)).value
    {
      IndexBits(va);
      tables[Pte.GetPage(dir[PdNo(va)])][PtNo(va)]
    }

    method Write(va: nat, w: nat)
      requires Valid() && va < ADDRESSES && Entry(View(), PgNo(va)).Some? && w < 0x1_0000_0000
      modifies `tables
      ensures Valid() && Entry(View(), PgNo(va)) == Some(w) && OthersKept(old(View()), View(), PgNo(va))
    {
      IndexBits(va);
      SetEntryOnly(View(), PgNo(va), w);
      var t := Pte.GetPage(dir[PdNo(va)]);
      var row: seq<nat> := tables[t];
      ghost var before := View();
      tables := tables[t := row[PtNo(va) := w]];
      assert View() == SetEntry(before, PgNo(va), w);
      forall u: nat | u < PAGES && u != PgNo(va) ensures Mapped(View(), u) == Mapped(before, u) {
        assert Entry(View(), u) == Entry(before, u);
      }
    }

    /** `pagedir_set_page` */
    method SetPage(upage: nat, kpage: nat, writable: bool, page: Option<nat>) returns (ok: bool)
      requires Valid() && upage < PHYS_BASE && PgOfs(upage) == 0 && IsKernelPage(kpage) && Spare(View(), page)
      requires Mapped(View(), PgNo(upage)).None?
      modifies this
      ensures Valid() && OthersKept(old(View()), View(), PgNo(upage))
      ensures ok == (old(Entry(View(), PgNo(upage))).Some? || page.Some?)
      ensures !ok ==> View() == old(View())
      ensures ok ==> Mapped(View(), PgNo(upage)) == Some(PteCreateUser(kpage, writable))
      ensures ok ==> Pte.GetPage(PteCreateUser(kpage, writable)) == kpage
    {
      ok := LookupPage(upage, true, page);
      PteRoundTrip(kpage, writable);
      if ok {
        ghost var middle := View();
        Write(upage, PteCreateUser(kpage, writable));
        assert forall u: nat | u < PAGES && u != PgNo(upage) :: Mapped(View(), u) == Mapped(middle, u);
      }
    }

    /** `pagedir_get_page` */
    method GetPage(uaddr: nat) returns (r: Option<nat>)
      requires Valid() && uaddr < PHYS_BASE
      ensures match Mapped(View(), PgNo(uaddr))
              case Some(w) => r == Some(Pte.GetPage(w) + uaddr % 4096)
              case None => r == None
    {
      OffsetBits(uaddr);
      IndexBits(uaddr);
      assert TableInv(View(), PdNo(uaddr));
      if dir[PdNo(uaddr)] == 0 {
        return None;
      }
      var w := Read(uaddr);
      if Flag(w, PTE_P) {
        return Some(Pte.GetPage(w) + PgOfs(uaddr));
      }
      return None;
    }

    /** `pagedir_clear_page`: the page is no longer mapped; the rest of its entry stays. */
    method ClearPage(upage: nat)
      requires Valid() && upage < PHYS_BASE && PgOfs(upage) == 0
      modifies this
      ensures Valid() && OthersKept(old(View()), View(), PgNo(upage)) && Mapped(View(), PgNo(upage)) == None
      ensures match old(Entry(View(), PgNo(upage)))
              case None => View() == old(View())
              case Some(w) =>
                && Entry(View(), PgNo(upage)).Some?
                && var w' := Entry(View(), PgNo(upage)).value;
                   && Pte.GetPage(w') == Pte.GetPage(w)
                   && forall j: nat | j > 0 :: Flag(w', Pow2(j)) == Flag(w, Pow2(j))
    {
      var found := LookupPage(upage, false, None);
      if found {
        var w := Read(upage);
        if Flag(w, PTE_P) {
          assert Pow2(0) == PTE_P;
          ClearFlag(w, 0);
          Write(upage, AndNot(w, PTE_P));
        }
      }
    }

    /** `pagedir_is_accessed` and `pagedir_is_dirty`: bit 5 or 6 of the entry. */
    method TestFlag(va: nat, i: nat) returns (r: bool)
      requires Valid() && va < ADDRESSES
      ensures r == (Entry(View(), PgNo(va)).Some? && Flag(Entry(View(), PgNo(va)).value, Pow2(i)))
    {
      IndexBits(va);
      assert TableInv(View(), PdNo(va));
      if dir[PdNo(va)] == 0 {
        return false;
      }
      r := And(Read(va), Pow2(i)) != 0;
    }

    /** `pagedir_set_accessed` and `pagedir_set_dirty`: only that bit of that entry changes. */
    method PutFlag(va: nat, i: nat, on: bool)
      requires Valid() && va < ADDRESSES && 0 < i < 12
      modifies this
      ensures Valid() && OthersKept(old(View()), View(), PgNo(va))
      ensures match old(Entry(View(), PgNo(va)))
              case None => View() == old(View())
              case Some(w) =>
                && Entry(View(), PgNo(va)).Some?
                && var w' := Entry(View(), PgNo(va)).value;
                   && Pte.GetPage(w') == Pte.GetPage(w)
                   && forall j: nat :: Flag(w', Pow2(j)) == if j == i then on else Flag(w, Pow2(j))
    {
      var found := LookupPage(va, false, None);
      if found {
        var w := Read(va);
        SetFlag(w, i);
        ClearFlag(w, i);
        Write(va, if on then Or(w, Pow2(i)) else AndNot(w, Pow2(i)));
      }
    }

    /** `pagedir_destroy`: gives back every mapped frame of the user, every user table and the
        directory; once each, and no table of the kernel, provided that no page serves two
        purposes. */
    method Destroy() returns (freed: seq<nat>)
      requires Valid()
      ensures Distinct(View()) && !FrameBelow(View(), USER_PAGES, self) && self !in tables ==> NoDup(freed)
      ensures forall x: nat :: x in freed <==>
                FrameBelow(View(), USER_PAGES, x) || TableBelow(View(), USER_TABLES, x) || x == self
      ensures Distinct(View()) && self !in tables ==>
                forall i: nat | USER_TABLES <= i < ENTRIES && dir[i] != 0 :: Pte.GetPage(dir[i]) !in freed
    {
      freed := [];
      var i := 0;
      while i < USER_TABLES
        invariant 0 <= i <= USER_TABLES && freed == Freed(View(), i)
      {
        assert TableInv(View(), i);
        ZeroAbsent();
        if And(dir[i], PTE_P) != 0 {
          var pt := Pte.GetPage(dir[i]);
          var frames := FreeTable(pt);
          freed := freed + (frames + [pt]);
        }
        i := i + 1;
      }
      ghost var all := freed;
      freed := freed + [self];
      forall x: nat ensures x in freed <==>
        FrameBelow(View(), USER_PAGES, x) || TableBelow(View(), USER_TABLES, x) || x == self
      {
        FreedAre(View(), USER_TABLES, x);
      }
      if Distinct(View()) && !FrameBelow(View(), USER_PAGES, self) && self !in tables {
        FreedOnce(View(), USER_TABLES);
        forall j: nat | j < USER_TABLES ensures !IsTable(View(), j, self) { assert TableInv(View(), j); }
        FreedAre(View(), USER_TABLES, self);
        Appended(all, self);
      }
      forall i: nat | USER_TABLES <= i < ENTRIES && dir[i] != 0 && Distinct(View()) && self !in tables
        ensures Pte.GetPage(dir[i]) !in freed
      {
        KernelTableKept(View(), i);
      }
    }

    /** The inner loop of `pagedir_destroy`. */
    method FreeTable(pt: nat) returns (frames: seq<nat>)
      requires pt in tables && |tables[pt]| == ENTRIES
      ensures frames == Frames(tables[pt], ENTRIES)
    {
      frames := [];
      for k := 0 to ENTRIES
        invariant frames == Frames(tables[pt], k)
      {
        if And(tables[pt][k], PTE_P) != 0 {
          frames := frames + [Pte.GetPage(tables[pt][k])];
        }
      }
    }
  }
}
