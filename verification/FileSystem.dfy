/** Creating, opening, removing and closing files (src/filesys/filesys.c, inode.c,
    free-map.c): what owns a sector over the life of a file.

    Calls take flags for what can go wrong outside: memory allocation and writing the free map or
    the directory to the disk, and how many slots of the directory can be read before memory for
    the next one cannot be had. */
module FileSystem {
  import opened Common
  import opened Bitmap
  import opened InodeIO
  import opened Ownership
  import D = Directory

  const FREE_MAP_SECTOR: nat := 0
  const ROOT_DIR_SECTOR: nat := 1

  /** `struct inode`. */
  datatype Inode = Inode(openCnt: nat, removed: bool, denyWriteCnt: nat, data: Extent)

  /** `struct file`, without its position. */
  datatype File = File(sector: nat, denyWrite: bool)

  /** `disk` holds the inodes on the disk by header sector (stale ones are never read), `dir`
      the slots of the root directory, `open` the open inodes and `files` the open files by some
      identifier. */
  datatype FS = FS(
    marked: seq<bool>,
    disk: map<nat, Extent>,
    dir: seq<D.Slot>,
    open: map<nat, Inode>,
    files: map<nat, File>)

  // ---------------------------------------------------------------- invariant

  predicate At(dir: seq<D.Slot>, i: nat, h: nat)
    requires i < |dir|
  {
    dir[i].inUse && dir[i].sector == h
  }

  /** Whether some name in the directory stands for the file at `h`. */
  ghost predicate Named(dir: seq<D.Slot>, h: nat) {
    exists i: nat :: i < |dir| && At(dir, i, h)
  }

  /** Header sectors of files that still exist: the two system files, those with a name, and
      those that are open. */
  ghost predicate Live(fs: FS, h: nat) {
    h == FREE_MAP_SECTOR || h == ROOT_DIR_SECTOR || Named(fs.dir, h) || h in fs.open
  }

  /** The files that exist, with the extents their on-disk inodes name. */
  ghost function Files(fs: FS): map<nat, Extent> {
    map h | h in fs.disk && Live(fs, h) :: fs.disk[h]
  }

  /** No two slots in use stand for the same file. */
  ghost predicate Distinct(dir: seq<D.Slot>) {
    forall i, j | 0 <= i < j < |dir| && dir[i].inUse && dir[j].inUse :: dir[i].sector != dir[j].sector
  }

  ghost predicate DirInv(fs: FS) {
    && FREE_MAP_SECTOR in fs.disk && ROOT_DIR_SECTOR in fs.disk && Distinct(fs.dir)
    && (forall i: nat | i < |fs.dir| && fs.dir[i].inUse :: fs.dir[i].sector in fs.disk && fs.dir[i].sector > 1)
    && (forall s | s in fs.open && fs.open[s].removed :: s > 1 && !Named(fs.dir, s))
  }

  ghost function OpenersOf(fs: FS, s: nat): set<nat> {
    set f | f in fs.files && fs.files[f].sector == s
  }

  ghost function DeniersOf(fs: FS, s: nat): set<nat> {
    set f | f in fs.files && fs.files[f] == File(s, true)
  }

  /** The counts of an open inode are those of the files that have it open. */
  ghost predicate OpenInv(fs: FS, s: nat)
    requires s in fs.open
  {
    var i := fs.open[s];
    && s in fs.disk && i.data == fs.disk[s]
    && i.openCnt == |OpenersOf(fs, s)| && i.openCnt >= 1
    && i.denyWriteCnt == |DeniersOf(fs, s)|
  }

  ghost predicate OpenersIn(fs: FS) {
    && (forall s {:trigger OpenInv(fs, s)} | s in fs.open :: OpenInv(fs, s))
    && (forall f | f in fs.files :: fs.files[f].sector in fs.open)
  }

  /** No sector has two owners, and every owned sector is marked. */
  ghost predicate Inv(fs: FS) {
    DirInv(fs) && OpenersIn(fs) && Owned(fs.marked, Files(fs))
  }

  // ---------------------------------------------------------------- free-map.c

  /** `free_map_allocate`: first fit, undone if the free map cannot be written. */
  function Allocate(b: seq<bool>, cnt: nat, mapWritten: bool): (r: (seq<bool>, Option<nat>))
    ensures r.1.Some? ==> mapWritten && FirstFit(b, 0, cnt, false, r.1)
                          && r.0 == Filled(b, r.1.value, cnt, true)
    ensures r.1.None? ==> r.0 == b && (mapWritten ==> FirstFit(b, 0, cnt, false, None))
  {
    ScanIsFirstFit(b, 0, cnt);
    match ScanFrom(b, 0, cnt)
    case None => (b, None)
    case Some(k) =>
      var taken := Filled(b, k, cnt, true);
      if mapWritten then (taken, Some(k))
      else
        assert Filled(taken, k, cnt, false) == b;
        (Filled(taken, k, cnt, false), None)
  }

  // ---------------------------------------------------------------- create

  datatype CreateFlags = CreateFlags(
    dirOpened: bool, mapWritten: bool, memory: bool, mapWrittenAgain: bool,
    lookupReads: nat, scanReads: nat, dirWritten: bool)

  /** The header and data sectors that `filesys_create` finds before it calls `dir_add`. */
  datatype Found = Found(header: nat, start: nat, taken: seq<bool>)

  function Find(fs: FS, size: nat, f: CreateFlags): (r: Option<Found>)
    ensures r.Some? ==> NewSectors(fs.marked, r.value.header, Extent(r.value.start, size), r.value.taken)
  {
    if !f.dirOpened then None else
    var (b1, header) := Allocate(fs.marked, 1, f.mapWritten);
    if header.None? || !f.memory then None else
    var (b2, start) := Allocate(b1, BytesToSectors(size), f.mapWrittenAgain);
    if start.None? then None else
    NewSectorsFound(fs.marked, header.value, b1, start.value, size, b2);
    Some(Found(header.value, start.value, b2))
  }

  /** The header goes to the lowest free sector. */
  predicate HeaderAt(b: seq<bool>, h: nat) {
    h < |b| && !b[h] && forall i | 0 <= i < h :: b[i]
  }

  /** There is room for `n` data sectors at `k` besides the header. */
  predicate DataAt(b: seq<bool>, h: nat, k: nat, n: nat) {
    k + n <= |b| && forall i | k <= i < k + n :: !b[i] && i != h
  }

  /** Sectors for a new file are found exactly if nothing else fails, some sector is free and there
      are enough in a row besides it; they are the lowest ones. */
  lemma FindExact(fs: FS, size: nat, f: CreateFlags)
    ensures var n := BytesToSectors(size);
            && (Find(fs, size, f).Some? <==>
                && f.dirOpened && f.mapWritten && f.memory && f.mapWrittenAgain
                && exists h: nat, k: nat :: HeaderAt(fs.marked, h) && DataAt(fs.marked, h, k, n))
            && (Find(fs, size, f).Some? ==>
                var found := Find(fs, size, f).value;
                && HeaderAt(fs.marked, found.header) && DataAt(fs.marked, found.header, found.start, n)
                && forall k: nat | k < found.start :: !DataAt(fs.marked, found.header, k, n))
  {
    var b, n := fs.marked, BytesToSectors(size);
    var r := Allocate(b, 1, f.mapWritten);
    if f.mapWritten { FirstFree(b, r.1); }
    if r.1.Some? {
      var b1, h := r.0, r.1.value;
      forall k: nat | k + n <= |b| ensures AllAre(b1, k, n, false) <==> DataAt(b, h, k, n) { RunBesides(b, h, k, n); }
      forall g: nat | HeaderAt(b, g) ensures g == h {}
      var r2 := Allocate(b1, n, f.mapWrittenAgain).1;
      if r2.Some? { assert DataAt(b, h, r2.value, n); }
    }
  }

  lemma FirstFree(b: seq<bool>, r: Option<nat>)
    requires FirstFit(b, 0, 1, false, r)
    ensures match r case Some(h) => HeaderAt(b, h) case None => forall h: nat :: !HeaderAt(b, h)
  {
    forall i | 0 <= i < |b| && !b[i] ensures AllAre(b, i, 1, false) {}
    if r.Some? { assert !b[r.value]; }
  }

  lemma RunBesides(b: seq<bool>, h: nat, k: nat, n: nat)
    requires h < |b| && k + n <= |b|
    ensures AllAre(Filled(b, h, 1, true), k, n, false) <==> DataAt(b, h, k, n)
  {
    var b1 := Filled(b, h, 1, true);
    if AllAre(b1, k, n, false) {
      forall i | k <= i < k + n ensures !b[i] && i != h { assert !b1[i]; }
    }
  }

  /** `taken` is `b` with the header and the data of a new file marked, all free before. */
  ghost predicate NewSectors(b: seq<bool>, h: nat, e: Extent, taken: seq<bool>) {
    && |taken| == |b| && Apart(h, e) && e.start + BytesToSectors(e.length) <= |b|
    && (forall i: int | InRegion(h, e, i) :: 0 <= i < |b| && !b[i])
    && (forall i | 0 <= i < |b| :: taken[i] == (b[i] || InRegion(h, e, i)))
  }

  lemma NewSectorsFound(b: seq<bool>, h: nat, b1: seq<bool>, start: nat, size: nat, b2: seq<bool>)
    requires FirstFit(b, 0, 1, false, Some(h)) && b1 == Filled(b, h, 1, true)
    requires FirstFit(b1, 0, BytesToSectors(size), false, Some(start))
    requires b2 == Filled(b1, start, BytesToSectors(size), true)
    ensures NewSectors(b, h, Extent(start, size), b2)
  {
    assert !b[h] && b1[h];
  }

  function Add(fs: FS, name: string, h: nat, f: CreateFlags): (seq<D.Slot>, bool) {
    D.Add(fs.dir, name, h, f.lookupReads, f.scanReads, f.dirWritten)
  }

  /** `filesys_create`.  When only `dir_add` fails, the header sector alone is given back. */
  function Create(fs: FS, name: string, size: nat, f: CreateFlags): (FS, bool) {
    match Find(fs, size, f)
    case None => (fs, false)
    case Some(Found(h, start, taken)) =>
      var disk := fs.disk[h := Extent(start, size)];
      var (dir, ok) := Add(fs, name, h, f);
      if ok then (fs.(marked := taken, disk := disk, dir := dir), true)
      else (fs.(marked := if h < |taken| then Filled(taken, h, 1, false) else taken, disk := disk), false)
  }

  /** The file whose slot `dir_add` writes over, because reading the slot failed, if it is a file
      that nobody has open. */
  function WrittenOver(fs: FS, f: CreateFlags): Option<nat> {
    var i := Min(D.FindFree(fs.dir, 0), f.scanReads);
    if i < |fs.dir| && fs.dir[i].inUse && fs.dir[i].sector !in fs.open then Some(fs.dir[i].sector) else None
  }

  ghost function Forgotten(files: map<nat, Extent>, h: Option<nat>): map<nat, Extent> {
    if h.Some? then files - {h.value} else files
  }

  /** Writing a slot gives one file a name and takes it from the file that had the slot. */
  lemma NamedWrite(dir: seq<D.Slot>, i: nat, slot: D.Slot, x: nat)
    requires i < |dir| && Distinct(dir)
    ensures Named(dir[i := slot], x) <==>
            (slot.inUse && slot.sector == x) || (Named(dir, x) && !At(dir, i, x))
  {
    var dir' := dir[i := slot];
    if slot.inUse && slot.sector == x { assert At(dir', i, x); }
    if j: nat :| j < |dir| && At(dir, j, x) && j != i { assert At(dir', j, x); }
    if j: nat :| j < |dir'| && At(dir', j, x) && j != i { assert At(dir, j, x); }
  }

  /** What is live is on the disk, so a sector that no file owns is not the header of a live file. */
  lemma NotLive(fs: FS, h: nat)
    requires DirInv(fs) && OpenersIn(fs) && h !in Files(fs)
    ensures !Live(fs, h) && h > 1 && h !in fs.open && !Named(fs.dir, h)
  {
    assert h in fs.open ==> OpenInv(fs, h);
  }

  lemma SameCounts(fs: FS, fs': FS, s: nat)
    requires fs'.files == fs.files
    ensures OpenersOf(fs', s) == OpenersOf(fs, s) && DeniersOf(fs', s) == DeniersOf(fs, s)
  {}

  /** Creation that succeeds adds one file, on sectors that were free.  If `dir_add` wrote over
      the slot of a file that nobody has open, that file is gone, and its sectors and no others
      are lost. */
  lemma CreateAdds(fs: FS, name: string, size: nat, f: CreateFlags)
    requires Inv(fs) && Create(fs, name, size, f).1
    ensures var fs', found, gone := Create(fs, name, size, f).0, Find(fs, size, f).value, WrittenOver(fs, f);
            && Inv(fs') && found.header !in Files(fs) && (gone.Some? ==> gone.value in Files(fs))
            && Files(fs') == Forgotten(Files(fs), gone)[found.header := Extent(found.start, size)]
            && forall i: int :: i in Leaked(fs'.marked, Files(fs')) <==>
                 i in Leaked(fs.marked, Files(fs)) || (gone.Some? && InRegion(gone.value, Files(fs)[gone.value], i))
  {
    var fs', found, gone := Create(fs, name, size, f).0, Find(fs, size, f).value, WrittenOver(fs, f);
    var h, e := found.header, Extent(found.start, size);
    AddFile(fs.marked, found.taken, Files(fs), h, e);
    NotLive(fs, h);
    NewFile(fs, fs', name, h, e, f);
    AddAndForget(fs.marked, found.taken, Files(fs), h, e, gone);
  }

  /** A file joins the others and another may be forgotten. */
  lemma AddAndForget(b0: seq<bool>, b: seq<bool>, files: map<nat, Extent>, h: nat, e: Extent, gone: Option<nat>)
    requires NewSectors(b0, h, e, b) && h !in files && Owned(b, files[h := e])
    requires gone.Some? ==> gone.value in files
    ensures var files' := Forgotten(files, gone)[h := e];
            && Owned(b, files')
            && forall i: int :: i in Leaked(b, files') <==>
                 i in Leaked(b0, files) || (gone.Some? && InRegion(gone.value, files[gone.value], i))
  {
    AddedLeaks(b0, b, files, h, e);
    if gone.Some? {
      ForgetFile(b, files[h := e], gone.value);
      assert files[h := e] - {gone.value} == Forgotten(files, gone)[h := e];
    }
  }

  lemma AddedLeaks(b0: seq<bool>, b: seq<bool>, files: map<nat, Extent>, h: nat, e: Extent)
    requires NewSectors(b0, h, e, b) && h !in files
    ensures forall i: int :: i in Leaked(b, files[h := e]) <==> i in Leaked(b0, files)
  {
    var files' := files[h := e];
    forall i: int ensures i in Leaked(b, files') <==> i in Leaked(b0, files) {
      if g :| g in files && InRegion(g, files[g], i) { assert InRegion(g, files'[g], i); }
      if g :| g in files' && InRegion(g, files'[g], i) && g != h { assert InRegion(g, files[g], i); }
      if InRegion(h, e, i) { assert h in files' && InRegion(h, files'[h], i); }
    }
  }

  lemma NewFile(fs: FS, fs': FS, name: string, h: nat, e: Extent, f: CreateFlags)
    requires DirInv(fs) && OpenersIn(fs) && !Live(fs, h) && Add(fs, name, h, f).1
    requires fs' == fs.(marked := fs'.marked, disk := fs.disk[h := e], dir := Add(fs, name, h, f).0)
    ensures DirInv(fs') && OpenersIn(fs')
    ensures Files(fs') == Forgotten(Files(fs), WrittenOver(fs, f))[h := e]
    ensures WrittenOver(fs, f).Some? ==> WrittenOver(fs, f).value in Files(fs) && WrittenOver(fs, f).value != h
  {
    var i := Min(D.FindFree(fs.dir, 0), f.scanReads);
    var slot := D.Slot(h, name, true);
    NewFileDir(fs, fs', i, slot, e);
    assert OpenersIn(fs') by { KeepOpeners(fs, fs'); }
    assert fs.dir[i].inUse ==> At(fs.dir, i, fs.dir[i].sector);
    forall x: nat ensures Live(fs', x) <==> x == h || (Live(fs, x) && WrittenOver(fs, f) != Some(x)) {
      NamedWrite(fs.dir, i, slot, x);
    }
    NewFileFiles(fs, fs', h, e, WrittenOver(fs, f));
  }

  lemma NewFileDir(fs: FS, fs': FS, i: nat, slot: D.Slot, e: Extent)
    requires DirInv(fs) && !Live(fs, slot.sector) && i < |fs.dir| && slot.inUse
    requires fs' == fs.(marked := fs'.marked, disk := fs.disk[slot.sector := e], dir := fs.dir[i := slot])
    ensures DirInv(fs')
  {
    forall j: nat | j < |fs.dir| && fs.dir[j].inUse ensures fs.dir[j].sector != slot.sector {
      assert At(fs.dir, j, fs.dir[j].sector);
    }
    forall s | s in fs'.open && fs'.open[s].removed ensures !Named(fs'.dir, s) {
      NamedWrite(fs.dir, i, slot, s);
    }
  }

  lemma NewFileFiles(fs: FS, fs': FS, h: nat, e: Extent, gone: Option<nat>)
    requires fs'.disk == fs.disk[h := e] && !Live(fs, h)
    requires forall x: nat :: Live(fs', x) <==> x == h || (Live(fs, x) && gone != Some(x))
    ensures Files(fs') == Forgotten(Files(fs), gone)[h := e]
  {}

  /** Open inodes keep their invariant when the files that have them open stay the same. */
  lemma KeepOpeners(fs: FS, fs': FS)
    requires OpenersIn(fs) && fs'.files == fs.files && fs'.open == fs.open
    requires forall s | s in fs.open && s in fs.disk :: s in fs'.disk && fs'.disk[s] == fs.disk[s]
    ensures OpenersIn(fs')
  {
    forall s | s in fs'.open ensures OpenInv(fs', s) {
      assert OpenInv(fs, s);
      SameCounts(fs, fs', s);
    }
  }

  /** Creation succeeds exactly if sectors are found and `dir_add` reports success; then one slot of
      the directory holds the new name, and nothing changes but the map, that slot and the inode. */
  lemma CreateExact(fs: FS, name: string, size: nat, f: CreateFlags)
    ensures var (fs', ok) := Create(fs, name, size, f);
            && (ok <==>
                && Find(fs, size, f).Some?
                && D.ValidName(name) && f.dirWritten
                && (forall i: nat | i < |fs.dir| && i < f.lookupReads :: !D.Has(fs.dir, i, name))
                && (f.scanReads < |fs.dir| || exists i :: 0 <= i < |fs.dir| && !fs.dir[i].inUse))
            && fs'.open == fs.open && fs'.files == fs.files
            && (!ok ==> fs'.dir == fs.dir)
            && (ok ==>
                var found := Find(fs, size, f).value;
                && fs'.disk == fs.disk[found.header := Extent(found.start, size)]
                && exists i: nat :: D.Puts(fs.dir, fs'.dir, i, D.Slot(found.header, name, true)))
  {
    var found := Find(fs, size, f);
    if found.Some? {
      D.AddReports(fs.dir, name, found.value.header, f.lookupReads, f.scanReads, f.dirWritten);
    }
  }

  /** Creation that fails leaves every file, name and open inode as it was.  Data sectors are
      lost exactly when everything but `dir_add` worked and the file was to have any. */
  lemma CreateFails(fs: FS, name: string, size: nat, f: CreateFlags)
    requires Inv(fs) && !Create(fs, name, size, f).1
    ensures var fs' := Create(fs, name, size, f).0;
            && Inv(fs') && Files(fs') == Files(fs) && fs'.dir == fs.dir && fs'.open == fs.open
            && (fs'.marked == fs.marked <==> Find(fs, size, f).None? || size == 0)
            && forall i: int :: i in Leaked(fs'.marked, Files(fs')) <==>
                 i in Leaked(fs.marked, Files(fs))
                 || (Find(fs, size, f).Some? && LostData(Find(fs, size, f).value, size, i))
  {
    var fs' := Create(fs, name, size, f).0;
    if Find(fs, size, f).Some? {
      var found := Find(fs, size, f).value;
      var h, e := found.header, Extent(found.start, size);
      AddFile(fs.marked, found.taken, Files(fs), h, e);
      NotLive(fs, h);
      LostMarks(fs.marked, found, size);
      assert Files(fs') == Files(fs) by { StaleDisk(fs, fs', h, e); }
      KeepOpeners(fs, fs');
      LostOwned(fs.marked, fs'.marked, Files(fs), found, size);
    }
  }

  lemma StaleDisk(fs: FS, fs': FS, h: nat, e: Extent)
    requires !Live(fs, h) && fs'.dir == fs.dir && fs'.open == fs.open && fs'.disk == fs.disk[h := e]
    ensures Files(fs') == Files(fs)
  {}

  /** Giving back only the header leaves the data marked. */
  lemma LostMarks(b: seq<bool>, found: Found, size: nat)
    requires NewSectors(b, found.header, Extent(found.start, size), found.taken)
    ensures found.header < |b|
    ensures var b' := Filled(found.taken, found.header, 1, false);
            && (forall i | 0 <= i < |b| :: b'[i] == (b[i] || LostData(found, size, i)))
            && (b' == b <==> size == 0)
            && (forall i: int | LostData(found, size, i) :: 0 <= i < |b| && !b[i])
  {
    var h, e := found.header, Extent(found.start, size);
    assert InRegion(h, e, h);
    var b' := Filled(found.taken, h, 1, false);
    forall i: int | LostData(found, size, i) ensures 0 <= i < |b| && !b[i] {
      assert InRegion(h, e, i);
    }
    if size > 0 {
      assert LostData(found, size, found.start);
      assert b'[found.start] != b[found.start];
    } else {
      assert b' == b;
    }
  }

  lemma LostOwned(b: seq<bool>, b': seq<bool>, files: map<nat, Extent>, found: Found, size: nat)
    requires Owned(b, files) && |b'| == |b|
    requires forall i | 0 <= i < |b| :: b'[i] == (b[i] || LostData(found, size, i))
    requires forall i: int | LostData(found, size, i) :: 0 <= i < |b| && !b[i]
    ensures Owned(b', files)
    ensures forall i: int :: i in Leaked(b', files) <==> i in Leaked(b, files) || LostData(found, size, i)
  {
    forall i: int | LostData(found, size, i) ensures i in Leaked(b', files) {
      assert forall h | h in files :: InRegion(h, files[h], i) ==> b[i];
    }
  }

  predicate LostData(found: Found, size: nat, i: int) {
    found.start <= i < found.start + BytesToSectors(size)
  }

  // ---------------------------------------------------------------- open and close

  /** `inode_open`: an inode that is open already is shared. */
  function InodeOpen(fs: FS, s: nat, memory: bool): (r: (FS, bool))
    ensures r.0.disk == fs.disk && r.0.dir == fs.dir && r.0.files == fs.files
  {
    if s in fs.open then
      (fs.(open := fs.open[s := fs.open[s].(openCnt := fs.open[s].openCnt + 1)]), true)
    else if memory && s in fs.disk then
      (fs.(open := fs.open[s := Inode(1, false, 0, fs.disk[s])]), true)
    else (fs, false)
  }

  /** `inode_close`: the last closer drops the inode and, if it was removed, its sectors. */
  function InodeClose(fs: FS, s: nat): (r: FS)
    requires s in fs.open && fs.open[s].openCnt >= 1
    ensures r.disk == fs.disk && r.dir == fs.dir && r.files == fs.files
  {
    var i := fs.open[s];
    if i.openCnt > 1 then fs.(open := fs.open[s := i.(openCnt := i.openCnt - 1)])
    else if !i.removed then fs.(open := fs.open - {s})
    else fs.(open := fs.open - {s}, marked := Release(Release(fs.marked, s, 1), i.data.start,
                                                      BytesToSectors(i.data.length)))
  }

  /** `free_map_release`; the source asserts that the range is inside and all marked. */
  function Release(b: seq<bool>, k: nat, cnt: nat): seq<bool> {
    if k + cnt <= |b| then Filled(b, k, cnt, false) else b
  }

  /** `filesys_open` and `file_open`; `f` names the new file. */
  function Open(fs: FS, name: string, f: nat, dirOpened: bool, seen: nat, memory: bool, fileMemory: bool): (FS, bool) {
    var i := D.LookupAt(fs.dir, name, seen);
    if !dirOpened || i.None? then (fs, false) else
    var s := fs.dir[i.value].sector;
    var (fs1, ok) := InodeOpen(fs, s, memory);
    if !ok then (fs, false)
    else if fileMemory then (fs1.(files := fs.files[f := File(s, false)]), true)
    else (if fs1.open[s].openCnt >= 1 then InodeClose(fs1, s) else fs1, false)
  }

  /** What `inode_deny_write` and `inode_allow_write` assert when `f` begins or ceases to deny
      writes: never more deniers than openers, and one at least if `f` is one. */
  predicate Counted(fs: FS, f: nat)
    requires f in fs.files && fs.files[f].sector in fs.open
  {
    var i := fs.open[fs.files[f].sector];
    if fs.files[f].denyWrite then 0 < i.denyWriteCnt <= i.openCnt else i.denyWriteCnt + 1 <= i.openCnt
  }

  /** `file_deny_write` and `file_allow_write`. */
  function SetDeny(fs: FS, f: nat, deny: bool): FS
    requires f in fs.files && fs.files[f].sector in fs.open && Counted(fs, f)
  {
    var s := fs.files[f].sector;
    var i := fs.open[s];
    if fs.files[f].denyWrite == deny then fs
    else if deny then
      fs.(files := fs.files[f := File(s, true)],
          open := fs.open[s := i.(denyWriteCnt := i.denyWriteCnt + 1)])
    else
      fs.(files := fs.files[f := File(s, false)],
          open := fs.open[s := i.(denyWriteCnt := i.denyWriteCnt - 1)])
  }

  /** `file_close`. */
  function Close(fs: FS, f: nat): FS
    requires f in fs.files && fs.files[f].sector in fs.open && Counted(fs, f)
  {
    var fs1 := SetDeny(fs, f, false);
    InodeClose(fs1.(files := fs1.files - {f}), fs.files[f].sector)
  }

  /** A failed `file_open` undoes the `inode_open` before it. */
  lemma OpenFails(fs: FS, name: string, f: nat, dirOpened: bool, seen: nat, memory: bool, fileMemory: bool)
    requires Inv(fs) && !Open(fs, name, f, dirOpened, seen, memory, fileMemory).1
    ensures Open(fs, name, f, dirOpened, seen, memory, fileMemory).0 == fs
  {
    var i := D.LookupAt(fs.dir, name, seen);
    if dirOpened && i.Some? {
      var s := fs.dir[i.value].sector;
      var fs1 := InodeOpen(fs, s, memory).0;
      if s in fs.open {
        assert OpenInv(fs, s);
        assert fs1.open[s := fs.open[s]] == fs.open;
      } else if memory {
        assert fs1.open - {s} == fs.open;
      }
    }
  }

  /** A step that keeps the directory and removes no file, and after which the same files exist. */
  ghost predicate SameNames(fs: FS, fs': FS) {
    && fs'.disk == fs.disk && fs'.dir == fs.dir
    && (forall s | s in fs'.open && fs'.open[s].removed :: s in fs.open && fs.open[s].removed)
    && (forall s: nat | (s in fs.open) != (s in fs'.open) :: s <= 1 || Named(fs.dir, s))
  }

  lemma SameFiles(fs: FS, fs': FS)
    requires DirInv(fs) && SameNames(fs, fs')
    ensures DirInv(fs') && Files(fs') == Files(fs)
  {
    assert forall s: nat :: Live(fs', s) <==> Live(fs, s);
  }

  /** Opening finds the first slot with the name. */
  lemma OpenAdds(fs: FS, name: string, f: nat, dirOpened: bool, seen: nat, memory: bool, fileMemory: bool)
    requires Inv(fs) && f !in fs.files && Open(fs, name, f, dirOpened, seen, memory, fileMemory).1
    ensures var fs' := Open(fs, name, f, dirOpened, seen, memory, fileMemory).0;
            && Inv(fs') && Files(fs') == Files(fs) && name in D.AsMap(fs.dir)
            && f in fs'.files && fs'.files[f] == File(D.AsMap(fs.dir)[name], false)
  {
    var fs', i := Open(fs, name, f, dirOpened, seen, memory, fileMemory).0, D.LookupAt(fs.dir, name, seen).value;
    var s := fs.dir[i].sector;
    D.MapFinds(fs.dir, name);
    assert At(fs.dir, i, s);
    SameFiles(fs, fs');
    OneMoreOpener(fs, fs', s, f);
  }

  /** Opening succeeds exactly if the first slot with the name can be read and there is memory for
      the file and, unless it is open already, for the inode; then the inode has one opener more,
      and nothing else changes but the new file. */
  lemma OpenExact(fs: FS, name: string, f: nat, dirOpened: bool, seen: nat, memory: bool, fileMemory: bool)
    requires Inv(fs) && f !in fs.files
    ensures var k := D.FindName(fs.dir, name, 0);
            var (fs', ok) := Open(fs, name, f, dirOpened, seen, memory, fileMemory);
            && (ok <==> dirOpened && fileMemory && k < |fs.dir| && k < seen && (fs.dir[k].sector in fs.open || memory))
            && fs'.marked == fs.marked && fs'.disk == fs.disk && fs'.dir == fs.dir
            && (ok ==> var s := fs.dir[k].sector;
                       && s in fs.disk && fs'.files == fs.files[f := File(s, false)] && s in fs'.open
                       && fs'.open - {s} == fs.open - {s}
                       && fs'.open[s] == if s in fs.open then fs.open[s].(openCnt := fs.open[s].openCnt + 1)
                                         else Inode(1, false, 0, fs.disk[s]))
  {
    if !Open(fs, name, f, dirOpened, seen, memory, fileMemory).1 {
      OpenFails(fs, name, f, dirOpened, seen, memory, fileMemory);
    }
  }

  lemma OneMoreOpener(fs: FS, fs': FS, s: nat, f: nat)
    requires OpenersIn(fs) && f !in fs.files && s in fs.disk
    requires fs'.disk == fs.disk && fs'.files == fs.files[f := File(s, false)]
    requires fs'.open == fs.open[s := if s in fs.open
                                      then fs.open[s].(openCnt := fs.open[s].openCnt + 1)
                                      else Inode(1, false, 0, fs.disk[s])]
    ensures OpenersIn(fs')
  {
    forall r | r in fs'.open ensures OpenInv(fs', r) {
      OpenCounts(fs, fs', f, r);
      if r in fs.open {
        assert OpenInv(fs, r);
      } else {
        assert OpenersOf(fs, r) == {} && DeniersOf(fs, r) == {};
      }
    }
  }

  lemma OpenCounts(fs: FS, fs': FS, f: nat, r: nat)
    requires f !in fs.files && f in fs'.files && !fs'.files[f].denyWrite
    requires fs'.files == fs.files[f := fs'.files[f]]
    ensures OpenersOf(fs', r) == OpenersOf(fs, r) + (if fs'.files[f].sector == r then {f} else {})
    ensures |OpenersOf(fs', r)| == |OpenersOf(fs, r)| + (if fs'.files[f].sector == r then 1 else 0)
    ensures DeniersOf(fs', r) == DeniersOf(fs, r)
  {
    assert OpenersOf(fs', r) == OpenersOf(fs, r) + (if fs'.files[f].sector == r then {f} else {});
  }

  /** The assertions of `inode_deny_write` and `inode_allow_write` hold. */
  lemma DeniersCounted(fs: FS, f: nat)
    requires OpenersIn(fs) && f in fs.files
    ensures Counted(fs, f)
  {
    var s := fs.files[f].sector;
    assert OpenInv(fs, s);
    var a, b := DeniersOf(fs, s), OpenersOf(fs, s);
    assert f in a <==> fs.files[f].denyWrite;
    assert a + {f} <= b && b == a + {f} + (b - (a + {f}));
    assert f in a ==> a + {f} == a;
  }

  /** Denying and allowing writes only moves the inode's count. */
  lemma DenyKeeps(fs: FS, f: nat, deny: bool)
    requires Inv(fs) && f in fs.files
    ensures Counted(fs, f)
    ensures Inv(SetDeny(fs, f, deny)) && Files(SetDeny(fs, f, deny)) == Files(fs)
  {
    DeniersCounted(fs, f);
    var fs', s := SetDeny(fs, f, deny), fs.files[f].sector;
    assert OpenInv(fs, s);
    SameFiles(fs, fs');
    if fs' != fs { DenyOpeners(fs, fs', f, deny); }
  }

  /** Denying or allowing writes is recorded in the file; nothing else changes but the count. */
  lemma DenyExact(fs: FS, f: nat, deny: bool)
    requires Inv(fs) && f in fs.files
    ensures Counted(fs, f)
    ensures var fs', s := SetDeny(fs, f, deny), fs.files[f].sector;
            && fs'.files == fs.files[f := File(s, deny)] && s in fs'.open
            && fs'.open[s].denyWriteCnt ==
                 fs.open[s].denyWriteCnt + (if deny then 1 else 0) - (if fs.files[f].denyWrite then 1 else 0)
            && fs' == fs.(files := fs'.files,
                          open := fs.open[s := fs.open[s].(denyWriteCnt := fs'.open[s].denyWriteCnt)])
  {
    DeniersCounted(fs, f);
    var s := fs.files[f].sector;
    if fs.files[f].denyWrite == deny {
      assert fs.files[f := File(s, deny)] == fs.files && fs.open[s := fs.open[s]] == fs.open;
    }
  }

  lemma DenyOpeners(fs: FS, fs': FS, f: nat, deny: bool)
    requires OpenersIn(fs) && f in fs.files && fs.files[f].denyWrite != deny
    requires var s := fs.files[f].sector;
             && fs'.disk == fs.disk && fs'.files == fs.files[f := File(s, deny)]
             && fs.open[s].denyWriteCnt + (if deny then 1 else -1) >= 0
             && fs'.open == fs.open[s := fs.open[s].(denyWriteCnt :=
                               fs.open[s].denyWriteCnt + (if deny then 1 else -1))]
    ensures OpenersIn(fs')
  {
    forall r | r in fs'.open ensures OpenInv(fs', r) {
      assert OpenInv(fs, r);
      DenyCounts(fs, fs', f, deny, r);
    }
  }

  lemma DenyCounts(fs: FS, fs': FS, f: nat, deny: bool, r: nat)
    requires f in fs.files && fs'.files == fs.files[f := File(fs.files[f].sector, deny)]
    ensures OpenersOf(fs', r) == OpenersOf(fs, r)
    ensures r != fs.files[f].sector ==> DeniersOf(fs', r) == DeniersOf(fs, r)
    ensures r == fs.files[f].sector ==>
              |DeniersOf(fs', r)| ==
                |DeniersOf(fs, r)| + (if deny then 1 else 0) - (if fs.files[f].denyWrite then 1 else 0)
  {
    var a, b := DeniersOf(fs, r), DeniersOf(fs', r);
    assert OpenersOf(fs', r) == OpenersOf(fs, r);
    if r != fs.files[f].sector {
      assert b == a;
    } else if deny {
      assert b == a + {f};
      assert f in a ==> b == a;
    } else {
      assert b == a - {f};
      assert f !in a ==> b == a;
    }
  }

  lemma CloseCounts(fs: FS, fs': FS, f: nat, r: nat)
    requires f in fs.files && !fs.files[f].denyWrite && fs'.files == fs.files - {f}
    ensures |OpenersOf(fs', r)| == |OpenersOf(fs, r)| - (if r == fs.files[f].sector then 1 else 0)
    ensures DeniersOf(fs', r) == DeniersOf(fs, r)
  {
    assert OpenersOf(fs', r) == OpenersOf(fs, r) - {f};
    assert r == fs.files[f].sector <==> f in OpenersOf(fs, r);
  }

  /** After the last close of an inode no file refers to it any more. */
  lemma NoOpenerLeft(fs: FS, f: nat, g: nat)
    requires OpenersIn(fs) && f in fs.files && g in fs.files && f != g
    requires fs.files[f].sector == fs.files[g].sector
    ensures fs.open[fs.files[f].sector].openCnt > 1
  {
    var s := fs.files[f].sector;
    assert OpenInv(fs, s);
    assert {f, g} <= OpenersOf(fs, s);
    assert OpenersOf(fs, s) == {f, g} + (OpenersOf(fs, s) - {f, g});
    assert |{f, g}| == 2;
  }

  lemma OneLessOpener(fs: FS, fs': FS, f: nat)
    requires OpenersIn(fs) && f in fs.files && !fs.files[f].denyWrite
    requires var s := fs.files[f].sector;
             && fs'.files == fs.files - {f} && fs'.disk == fs.disk
             && fs'.open == (if fs.open[s].openCnt > 1
                             then fs.open[s := fs.open[s].(openCnt := fs.open[s].openCnt - 1)]
                             else fs.open - {s})
    ensures OpenersIn(fs')
  {
    var s := fs.files[f].sector;
    assert OpenInv(fs, s);
    forall r | r in fs'.open ensures OpenInv(fs', r) {
      assert OpenInv(fs, r);
      CloseCounts(fs, fs', f, r);
    }
    forall g | g in fs'.files ensures fs'.files[g].sector in fs'.open {
      if fs.files[g].sector == s { NoOpenerLeft(fs, f, g); }
    }
  }

  /** Whether closing `f` is the last close of a removed file. */
  predicate Final(fs: FS, f: nat)
    requires f in fs.files && fs.files[f].sector in fs.open
  {
    var i := fs.open[fs.files[f].sector]; i.openCnt == 1 && i.removed
  }

  /** What `file_close` does to the inode, once the file no longer denies writes. */
  function Drop(fs: FS, f: nat): FS
    requires f in fs.files && fs.files[f].sector in fs.open && fs.open[fs.files[f].sector].openCnt >= 1
  {
    InodeClose(fs.(files := fs.files - {f}), fs.files[f].sector)
  }

  lemma CloseIsDrop(fs: FS, f: nat)
    requires Inv(fs) && f in fs.files
    ensures Counted(fs, f)
    ensures var fs1 := SetDeny(fs, f, false);
            && Inv(fs1) && Files(fs1) == Files(fs) && fs1.marked == fs.marked
            && fs1.files[f] == File(fs.files[f].sector, false)
            && fs1.open[fs.files[f].sector].openCnt == fs.open[fs.files[f].sector].openCnt
            && fs1.open[fs.files[f].sector].removed == fs.open[fs.files[f].sector].removed
            && Close(fs, f) == Drop(fs1, f)
  {
    assert OpenInv(fs, fs.files[f].sector);
    DenyKeeps(fs, f, false);
  }

  /** Whether closing `f` is the last close of a file that has lost its name without being removed. */
  ghost predicate Orphaned(fs: FS, f: nat)
    requires f in fs.files && fs.files[f].sector in fs.open
  {
    var s := fs.files[f].sector;
    fs.open[s].openCnt == 1 && !fs.open[s].removed && s > 1 && !Named(fs.dir, s)
  }

  /** Closing: a file keeps its sectors until the last close after its removal, and that
      close gives back exactly its own sectors, all of which were marked.  The last close of a
      file whose slot was written over gives nothing back and loses exactly its sectors. */
  lemma CloseReleases(fs: FS, f: nat)
    requires Inv(fs) && f in fs.files
    ensures Counted(fs, f) && fs.open[fs.files[f].sector].openCnt >= 1
    ensures Inv(Close(fs, f))
    ensures !Final(fs, f) ==> Close(fs, f).marked == fs.marked
    ensures !Final(fs, f) && !Orphaned(fs, f) ==> Files(Close(fs, f)) == Files(fs)
    ensures Final(fs, f) ==> Released(fs, Close(fs, f), fs.files[f].sector)
    ensures Orphaned(fs, f) ==> Lost(fs, Close(fs, f), fs.files[f].sector)
  {
    CloseIsDrop(fs, f);
    var fs1 := SetDeny(fs, f, false);
    if Final(fs, f) {
      LastClose(fs1, f);
    } else if Orphaned(fs, f) {
      LosingClose(fs1, f);
    } else {
      EarlyClose(fs1, f);
    }
  }

  /** A close takes away that file and one opener of its inode, which goes with the last one, and
      changes no other file or inode. */
  lemma CloseExact(fs: FS, f: nat)
    requires Inv(fs) && f in fs.files
    ensures Counted(fs, f)
    ensures var fs', s := Close(fs, f), fs.files[f].sector;
            && fs'.files == fs.files - {f} && fs'.dir == fs.dir && fs'.disk == fs.disk
            && fs'.open - {s} == fs.open - {s}
            && (s in fs'.open <==> fs.open[s].openCnt > 1)
            && (s in fs'.open ==> fs'.open[s] == fs.open[s].(openCnt := fs'.open[s].openCnt,
                                                             denyWriteCnt := fs'.open[s].denyWriteCnt)
                                  && fs'.open[s].openCnt == fs.open[s].openCnt - 1)
  {
    DeniersCounted(fs, f);
  }

  /** The file at `s` is gone: all its sectors were marked and exactly they are free now. */
  ghost predicate Released(fs: FS, fs': FS, s: nat) {
    && s in Files(fs) && Files(fs') == Files(fs) - {s}
    && (forall i: int | InRegion(s, Files(fs)[s], i) :: 0 <= i < |fs.marked| && fs.marked[i])
    && fs'.marked == Freed(fs.marked, s, Files(fs)[s])
  }

  /** The file at `s` is gone: its sectors stay marked and exactly they are lost. */
  ghost predicate Lost(fs: FS, fs': FS, s: nat) {
    && s in Files(fs) && Files(fs') == Files(fs) - {s} && fs'.marked == fs.marked
    && forall i: int :: i in Leaked(fs'.marked, Files(fs')) <==>
         i in Leaked(fs.marked, Files(fs)) || InRegion(s, Files(fs)[s], i)
  }

  /** What a close does to the open inodes. */
  ghost predicate OneClosed(fs: FS, fs': FS, f: nat)
    requires f in fs.files && fs.files[f].sector in fs.open && fs.open[fs.files[f].sector].openCnt >= 1
  {
    var s := fs.files[f].sector;
    && fs'.disk == fs.disk && fs'.dir == fs.dir && fs'.files == fs.files - {f}
    && fs'.open == if fs.open[s].openCnt > 1 then fs.open[s := fs.open[s].(openCnt := fs.open[s].openCnt - 1)]
                   else fs.open - {s}
  }

  lemma DropCloses(fs: FS, f: nat)
    requires f in fs.files && fs.files[f].sector in fs.open && fs.open[fs.files[f].sector].openCnt >= 1
    ensures OneClosed(fs, Drop(fs, f), f) && (!Final(fs, f) ==> Drop(fs, f).marked == fs.marked)
  {}

  lemma EarlyClose(fs: FS, f: nat)
    requires Inv(fs) && f in fs.files && !fs.files[f].denyWrite && !Final(fs, f) && !Orphaned(fs, f)
    ensures fs.open[fs.files[f].sector].openCnt >= 1
    ensures Inv(Drop(fs, f)) && Files(Drop(fs, f)) == Files(fs) && Drop(fs, f).marked == fs.marked
  {
    var s := fs.files[f].sector;
    assert OpenInv(fs, s);
    var fs' := Drop(fs, f);
    DropCloses(fs, f);
    assert SameNames(fs, fs');
    SameFiles(fs, fs');
    assert OpenersIn(fs') by { OneLessOpener(fs, fs', f); }
  }

  lemma LastClose(fs: FS, f: nat)
    requires Inv(fs) && f in fs.files && !fs.files[f].denyWrite && Final(fs, f)
    ensures Inv(Drop(fs, f)) && Released(fs, Drop(fs, f), fs.files[f].sector)
  {
    var s := fs.files[f].sector;
    assert OpenInv(fs, s);
    var fs' := Drop(fs, f);
    DropCloses(fs, f);
    DropFiles(fs, fs', s);
    DropFile(fs.marked, Files(fs), s);
    ReleaseBoth(fs.marked, s, fs.open[s].data);
    assert OpenersIn(fs') by { OneLessOpener(fs, fs', f); }
  }

  lemma LosingClose(fs: FS, f: nat)
    requires Inv(fs) && f in fs.files && !fs.files[f].denyWrite && Orphaned(fs, f)
    ensures fs.open[fs.files[f].sector].openCnt >= 1
    ensures Inv(Drop(fs, f)) && Lost(fs, Drop(fs, f), fs.files[f].sector)
  {
    var s := fs.files[f].sector;
    assert OpenInv(fs, s);
    var fs' := Drop(fs, f);
    DropCloses(fs, f);
    DropFiles(fs, fs', s);
    ForgetFile(fs.marked, Files(fs), s);
    assert OpenersIn(fs') by { OneLessOpener(fs, fs', f); }
  }

  lemma DropFiles(fs: FS, fs': FS, s: nat)
    requires DirInv(fs) && s in fs.open && s in fs.disk && s > 1 && !Named(fs.dir, s)
    requires fs'.disk == fs.disk && fs'.dir == fs.dir && fs'.open == fs.open - {s}
    ensures DirInv(fs') && s in Files(fs) && Files(fs)[s] == fs.disk[s] && Files(fs') == Files(fs) - {s}
  {
    assert forall x: nat :: Live(fs', x) <==> Live(fs, x) && x != s;
  }

  /** The two calls of `free_map_release` clear the region of the file. */
  lemma ReleaseBoth(b: seq<bool>, h: nat, e: Extent)
    requires h < |b| && e.start + BytesToSectors(e.length) <= |b|
    ensures Release(Release(b, h, 1), e.start, BytesToSectors(e.length)) == Freed(b, h, e)
  {}

  // ---------------------------------------------------------------- remove

  /** `filesys_remove` and `dir_remove`. */
  function Remove(fs: FS, name: string, dirOpened: bool, seen: nat, memory: bool, dirWritten: bool): (FS, bool) {
    var i := D.LookupAt(fs.dir, name, seen);
    if !dirOpened || i.None? then (fs, false) else
    var s := fs.dir[i.value].sector;
    var (fs1, ok) := InodeOpen(fs, s, memory);
    if !ok then (fs, false) else
    var fs2 := if dirWritten
               then fs1.(dir := D.Erased(fs.dir, i.value), open := fs1.open[s := fs1.open[s].(removed := true)])
               else fs1;
    (if fs2.open[s].openCnt >= 1 then InodeClose(fs2, s) else fs2, dirWritten)
  }

  /** Removal succeeds exactly if the first slot with the name can be read and written, and its inode
      is open or there is memory to open it. */
  lemma RemoveExact(fs: FS, name: string, dirOpened: bool, seen: nat, memory: bool, dirWritten: bool)
    requires Inv(fs)
    ensures var k := D.FindName(fs.dir, name, 0);
            Remove(fs, name, dirOpened, seen, memory, dirWritten).1 <==>
              dirOpened && dirWritten && k < |fs.dir| && k < seen && (fs.dir[k].sector in fs.open || memory)
  {}

  lemma RemoveFails(fs: FS, name: string, dirOpened: bool, seen: nat, memory: bool, dirWritten: bool)
    requires Inv(fs) && !Remove(fs, name, dirOpened, seen, memory, dirWritten).1
    ensures Remove(fs, name, dirOpened, seen, memory, dirWritten).0 == fs
  {
    var i := D.LookupAt(fs.dir, name, seen);
    if dirOpened && i.Some? {
      var s := fs.dir[i.value].sector;
      if s in fs.open {
        assert OpenInv(fs, s);
        assert fs.open[s := fs.open[s].(openCnt := fs.open[s].openCnt + 1)][s := fs.open[s]] == fs.open;
      } else if memory {
        assert fs.open[s := Inode(1, false, 0, fs.disk[s])] - {s} == fs.open;
      }
    }
  }

  /** Removing an open file takes its name away and nothing else. */
  lemma RemoveOpen(fs: FS, name: string, seen: nat, memory: bool)
    requires Inv(fs) && D.LookupAt(fs.dir, name, seen).Some?
    requires fs.dir[D.LookupAt(fs.dir, name, seen).value].sector in fs.open
    ensures var fs', i := Remove(fs, name, true, seen, memory, true).0, D.LookupAt(fs.dir, name, seen).value;
            var s := fs.dir[i].sector;
            && fs' == fs.(dir := D.Erased(fs.dir, i), open := fs.open[s := fs.open[s].(removed := true)])
            && Inv(fs') && Files(fs') == Files(fs)
  {
    var i := D.LookupAt(fs.dir, name, seen).value;
    var s := fs.dir[i].sector;
    assert OpenInv(fs, s);
    var fs' := fs.(dir := D.Erased(fs.dir, i), open := fs.open[s := fs.open[s].(removed := true)]);
    RemoveOpenState(fs, name, seen, memory);
    assert DirInv(fs') by { UnnamedDir(fs, fs', i); }
    UnnamedFiles(fs, fs', i);
    forall r | r in fs'.open ensures OpenInv(fs', r) {
      assert OpenInv(fs, r);
      SameCounts(fs, fs', r);
    }
  }

  /** A removed file lives on while it is open. */
  lemma UnnamedFiles(fs: FS, fs': FS, i: nat)
    requires DirInv(fs) && i < |fs.dir| && fs.dir[i].inUse && fs'.dir == D.Erased(fs.dir, i)
    requires fs'.disk == fs.disk && fs'.open.Keys == fs.open.Keys
    ensures fs.dir[i].sector in fs.open ==> Files(fs') == Files(fs)
    ensures fs.dir[i].sector !in fs.open ==> Files(fs') == Files(fs) - {fs.dir[i].sector}
  {
    var s := fs.dir[i].sector;
    assert At(fs.dir, i, s);
    forall x: nat ensures Live(fs', x) <==> Live(fs, x) && (x != s || s in fs.open) {
      NamedWrite(fs.dir, i, fs.dir[i].(inUse := false), x);
    }
  }

  lemma RemoveOpenState(fs: FS, name: string, seen: nat, memory: bool)
    requires D.LookupAt(fs.dir, name, seen).Some?
    requires var s := fs.dir[D.LookupAt(fs.dir, name, seen).value].sector; s in fs.open && fs.open[s].openCnt >= 1
    ensures var i := D.LookupAt(fs.dir, name, seen).value; var s := fs.dir[i].sector;
            Remove(fs, name, true, seen, memory, true).0 ==
              fs.(dir := D.Erased(fs.dir, i), open := fs.open[s := fs.open[s].(removed := true)])
  {
    var s := fs.dir[D.LookupAt(fs.dir, name, seen).value].sector;
    var i := fs.open[s];
    var more := i.(openCnt := i.openCnt + 1);
    assert fs.open[s := more][s := more.(removed := true)][s := i.(removed := true)]
        == fs.open[s := i.(removed := true)];
  }

  lemma UnnamedDir(fs: FS, fs': FS, i: nat)
    requires DirInv(fs) && i < |fs.dir| && fs.dir[i].inUse && fs'.dir == D.Erased(fs.dir, i)
    requires fs'.disk == fs.disk
    requires forall s | s in fs'.open && fs'.open[s].removed ::
               s == fs.dir[i].sector || (s in fs.open && fs.open[s].removed)
    ensures DirInv(fs')
  {
    forall s | s in fs'.open && fs'.open[s].removed ensures s > 1 && !Named(fs'.dir, s) {
      NamedWrite(fs.dir, i, fs.dir[i].(inUse := false), s);
      assert At(fs.dir, i, fs.dir[i].sector);
    }
  }

  /** Removing a file that nobody has open frees its sectors at once. */
  lemma RemoveClosed(fs: FS, name: string, seen: nat)
    requires Inv(fs) && D.LookupAt(fs.dir, name, seen).Some?
    requires fs.dir[D.LookupAt(fs.dir, name, seen).value].sector !in fs.open
    ensures var fs', i := Remove(fs, name, true, seen, true, true).0, D.LookupAt(fs.dir, name, seen).value;
            && fs'.dir == D.Erased(fs.dir, i) && fs'.open == fs.open && fs'.files == fs.files
            && Inv(fs') && Released(fs, fs', fs.dir[i].sector)
  {
    var fs', i := Remove(fs, name, true, seen, true, true).0, D.LookupAt(fs.dir, name, seen).value;
    var s := fs.dir[i].sector;
    assert At(fs.dir, i, s) && s in Files(fs) && Files(fs)[s] == fs.disk[s];
    RemovedState(fs, i, name, seen);
    UnnamedFiles(fs, fs', i);
    DropFile(fs.marked, Files(fs), s);
    ReleaseBoth(fs.marked, s, Files(fs)[s]);
    assert DirInv(fs') by { UnnamedDir(fs, fs', i); }
    assert OpenersIn(fs') by { KeepOpeners(fs, fs'); }
  }

  lemma RemovedState(fs: FS, i: nat, name: string, seen: nat)
    requires D.LookupAt(fs.dir, name, seen) == Some(i)
    requires fs.dir[i].sector in fs.disk && fs.dir[i].sector !in fs.open
    ensures var s := fs.dir[i].sector;
            Remove(fs, name, true, seen, true, true).0 ==
              fs.(dir := D.Erased(fs.dir, i),
                  marked := Release(Release(fs.marked, s, 1), fs.disk[s].start,
                                    BytesToSectors(fs.disk[s].length)))
  {
    var s := fs.dir[i].sector;
    assert fs.open[s := Inode(1, false, 0, fs.disk[s])][s := Inode(1, true, 0, fs.disk[s])] - {s} == fs.open;
  }

  // ---------------------------------------------------------------- runs

  datatype Op =
    | OpCreate(name: string, size: nat, flags: CreateFlags)
    | OpOpen(name: string, f: nat, dirOpened: bool, seen: nat, memory: bool, fileMemory: bool)
    | OpDeny(f: nat, deny: bool)
    | OpClose(f: nat)
    | OpRemove(name: string, dirOpened: bool, seen: nat, memory: bool, dirWritten: bool)

  predicate Possible(fs: FS, op: Op) {
    match op
    case OpOpen(_, f, _, _, _, _) => f !in fs.files
    case OpDeny(f, _) => f in fs.files && fs.files[f].sector in fs.open && Counted(fs, f)
    case OpClose(f) => f in fs.files && fs.files[f].sector in fs.open && Counted(fs, f)
    case _ => true
  }

  /** A file that is open can be closed, and can deny and allow writes, with no assertion failing. */
  lemma AlwaysPossible(fs: FS, f: nat, deny: bool)
    requires Inv(fs)
    ensures Possible(fs, OpDeny(f, deny)) <==> f in fs.files
    ensures Possible(fs, OpClose(f)) <==> f in fs.files
  {
    if f in fs.files { DeniersCounted(fs, f); }
  }

  function Apply(fs: FS, op: Op): FS
    requires Possible(fs, op)
  {
    match op
    case OpCreate(name, size, flags) => Create(fs, name, size, flags).0
    case OpOpen(name, f, dirOpened, seen, memory, fileMemory) =>
      Open(fs, name, f, dirOpened, seen, memory, fileMemory).0
    case OpDeny(f, deny) => SetDeny(fs, f, deny)
    case OpClose(f) => Close(fs, f)
    case OpRemove(name, dirOpened, seen, memory, dirWritten) => Remove(fs, name, dirOpened, seen, memory, dirWritten).0
  }

  lemma ApplyKeeps(fs: FS, op: Op)
    requires Inv(fs) && Possible(fs, op)
    ensures Inv(Apply(fs, op))
  {
    match op
    case OpCreate(name, size, flags) =>
      if Create(fs, name, size, flags).1 {
        CreateAdds(fs, name, size, flags);
      } else {
        CreateFails(fs, name, size, flags);
      }
    case OpOpen(name, f, dirOpened, seen, memory, fileMemory) =>
      if Open(fs, name, f, dirOpened, seen, memory, fileMemory).1 {
        OpenAdds(fs, name, f, dirOpened, seen, memory, fileMemory);
      } else {
        OpenFails(fs, name, f, dirOpened, seen, memory, fileMemory);
      }
    case OpDeny(f, deny) => DenyKeeps(fs, f, deny);
    case OpClose(f) => CloseReleases(fs, f);
    case OpRemove(name, dirOpened, seen, memory, dirWritten) =>
      if !Remove(fs, name, dirOpened, seen, memory, dirWritten).1 {
        RemoveFails(fs, name, dirOpened, seen, memory, dirWritten);
      } else if fs.dir[D.LookupAt(fs.dir, name, seen).value].sector in fs.open {
        RemoveOpen(fs, name, seen, memory);
      } else {
        RemoveClosed(fs, name, seen);
      }
  }

  predicate ValidRun(fs: FS, ops: seq<Op>)
    decreases |ops|
  {
    ops == [] || (Possible(fs, ops[0]) && ValidRun(Apply(fs, ops[0]), ops[1..]))
  }

  function Run(fs: FS, ops: seq<Op>): FS
    requires ValidRun(fs, ops)
    decreases |ops|
  {
    if ops == [] then fs else Run(Apply(fs, ops[0]), ops[1..])
  }

  /** Over every run no sector has two owners and every owned sector is marked. */
  lemma {:induction false} RunKeeps(fs: FS, ops: seq<Op>)
    requires Inv(fs) && ValidRun(fs, ops)
    ensures Inv(Run(fs, ops))
    decreases |ops|
  {
    if ops != [] {
      ApplyKeeps(fs, ops[0]);
      RunKeeps(Apply(fs, ops[0]), ops[1..]);
    }
  }

  /** What an operation does to the directory, if it gets that far. */
  function DirOp(fs: FS, op: Op): Option<D.Op> {
    match op
    case OpCreate(name, size, f) =>
      var found := Find(fs, size, f);
      if found.None? then None
      else Some(D.OpAdd(name, found.value.header, f.lookupReads, f.scanReads, f.dirWritten))
    case OpRemove(name, dirOpened, seen, memory, dirWritten) =>
      var i := D.LookupAt(fs.dir, name, seen);
      if !dirOpened || i.None? then None else
      var s := fs.dir[i.value].sector;
      Some(D.OpRemove(name, seen, s in fs.open || (memory && s in fs.disk), dirWritten))
    case _ => None
  }

  lemma ApplyDir(fs: FS, op: Op)
    requires Possible(fs, op)
    ensures Apply(fs, op).dir == match DirOp(fs, op) case None => fs.dir case Some(d) => D.Step(fs.dir, d)
  {
    match op
    case OpCreate(name, size, flags) =>
    case OpOpen(name, g, dirOpened, seen, memory, fileMemory) =>
    case OpDeny(g, deny) =>
    case OpClose(g) =>
    case OpRemove(name, dirOpened, seen, memory, dirWritten) =>
  }

  /** Every name that is reported as added is new and gets a free slot. */
  predicate SoundRun(fs: FS, ops: seq<Op>)
    requires ValidRun(fs, ops)
    decreases |ops|
  {
    ops == [] ||
      (&& (DirOp(fs, ops[0]).Some? ==> D.Sound(fs.dir, DirOp(fs, ops[0]).value))
       && SoundRun(Apply(fs, ops[0]), ops[1..]))
  }

  /** In such a run names stay unique as well. */
  lemma {:induction false} NamesStayUnique(fs: FS, ops: seq<Op>)
    requires ValidRun(fs, ops) && SoundRun(fs, ops) && D.Inv(fs.dir)
    ensures D.Inv(Run(fs, ops).dir)
    decreases |ops|
  {
    if ops != [] {
      ApplyDir(fs, ops[0]);
      if DirOp(fs, ops[0]).Some? { D.StepRefines(fs.dir, DirOp(fs, ops[0]).value); }
      NamesStayUnique(Apply(fs, ops[0]), ops[1..]);
    }
  }

  lemma ReleasedKeepsLost(fs: FS, fs': FS, s: nat, i: int)
    requires Released(fs, fs', s) && i in Leaked(fs.marked, Files(fs))
    ensures i in Leaked(fs'.marked, Files(fs'))
  {
    assert !InRegion(s, Files(fs)[s], i);
    assert forall h | h in Files(fs') && InRegion(h, Files(fs')[h], i) :: InRegion(h, Files(fs)[h], i);
  }

  /** A sector that is marked but belongs to no file stays so. */
  lemma ApplyKeepsLost(fs: FS, op: Op, i: int)
    requires Inv(fs) && Possible(fs, op) && i in Leaked(fs.marked, Files(fs))
    ensures i in Leaked(Apply(fs, op).marked, Files(Apply(fs, op)))
  {
    match op
    case OpCreate(name, size, flags) =>
      if Create(fs, name, size, flags).1 {
        CreateAdds(fs, name, size, flags);
      } else {
        CreateFails(fs, name, size, flags);
      }
    case OpOpen(name, f, dirOpened, seen, memory, fileMemory) =>
      if Open(fs, name, f, dirOpened, seen, memory, fileMemory).1 {
        OpenAdds(fs, name, f, dirOpened, seen, memory, fileMemory);
      } else {
        OpenFails(fs, name, f, dirOpened, seen, memory, fileMemory);
      }
    case OpDeny(f, deny) => DenyKeeps(fs, f, deny);
    case OpClose(f) =>
      CloseReleases(fs, f);
      if Final(fs, f) { ReleasedKeepsLost(fs, Close(fs, f), fs.files[f].sector, i); }
    case OpRemove(name, dirOpened, seen, memory, dirWritten) =>
      if !Remove(fs, name, dirOpened, seen, memory, dirWritten).1 {
        RemoveFails(fs, name, dirOpened, seen, memory, dirWritten);
      } else {
        var s := fs.dir[D.LookupAt(fs.dir, name, seen).value].sector;
        if s in fs.open {
          RemoveOpen(fs, name, seen, memory);
        } else {
          RemoveClosed(fs, name, seen);
          ReleasedKeepsLost(fs, Apply(fs, op), s, i);
        }
      }
  }

  /** No run of operations gets a lost sector back. */
  lemma {:induction false} LostForGood(fs: FS, ops: seq<Op>, i: int)
    requires Inv(fs) && ValidRun(fs, ops) && i in Leaked(fs.marked, Files(fs))
    ensures var fs' := Run(fs, ops); i in Leaked(fs'.marked, Files(fs'))
    decreases |ops|
  {
    if ops != [] {
      ApplyKeeps(fs, ops[0]);
      ApplyKeepsLost(fs, ops[0], i);
      LostForGood(Apply(fs, ops[0]), ops[1..], i);
    }
  }

  /** Only `file_close` closes a file, and only `inode_create` writes an inode. */
  lemma ApplyFrame(fs: FS, op: Op, f: nat)
    requires Possible(fs, op) && f in fs.files && op != OpClose(f)
    ensures f in Apply(fs, op).files && Apply(fs, op).files[f].sector == fs.files[f].sector
    ensures !op.OpCreate? ==> Apply(fs, op).disk == fs.disk
  {
    match op
    case OpCreate(name, size, flags) =>
    case OpOpen(name, g, dirOpened, seen, memory, fileMemory) =>
    case OpDeny(g, deny) =>
    case OpClose(g) =>
    case OpRemove(name, dirOpened, seen, memory, dirWritten) =>
  }

  /** One operation leaves a file alone as long as somebody else keeps it open. */
  lemma ApplyKeepsFile(fs: FS, op: Op, f: nat)
    requires Inv(fs) && Possible(fs, op) && f in fs.files && op != OpClose(f)
    ensures var fs', s := Apply(fs, op), fs.files[f].sector;
            && f in fs'.files && fs'.files[f].sector == s
            && s in fs.disk && s in fs'.disk && fs'.disk[s] == fs.disk[s]
  {
    ApplyFrame(fs, op, f);
    assert OpenInv(fs, fs.files[f].sector);
    if op.OpCreate? { CreateWritesNew(fs, op.name, op.size, op.flags, fs.files[f].sector); }
  }

  lemma CreateWritesNew(fs: FS, name: string, size: nat, f: CreateFlags, s: nat)
    requires Inv(fs) && s in fs.open && s in fs.disk
    ensures s in Create(fs, name, size, f).0.disk && Create(fs, name, size, f).0.disk[s] == fs.disk[s]
  {
    if Find(fs, size, f).Some? {
      var found := Find(fs, size, f).value;
      AddFile(fs.marked, found.taken, Files(fs), found.header, Extent(found.start, size));
      NotLive(fs, found.header);
    }
  }

  /** A file that stays open through a run exists at its end, on the same sectors, all of
      them marked, whether or not it was removed meanwhile. */
  lemma {:induction false} KeptWhileOpen(fs: FS, ops: seq<Op>, f: nat)
    requires Inv(fs) && ValidRun(fs, ops) && f in fs.files && OpClose(f) !in ops
    ensures var fs', s := Run(fs, ops), fs.files[f].sector;
            && Inv(fs') && f in fs'.files && s in Files(fs) && s in Files(fs')
            && Files(fs')[s] == Files(fs)[s]
            && forall i: int | InRegion(s, Files(fs)[s], i) :: 0 <= i < |fs'.marked| && fs'.marked[i]
    decreases |ops|
  {
    var s := fs.files[f].sector;
    assert OpenInv(fs, s);
    if ops != [] {
      assert ops[0] != OpClose(f);
      ApplyKeeps(fs, ops[0]);
      ApplyKeepsFile(fs, ops[0], f);
      KeptWhileOpen(Apply(fs, ops[0]), ops[1..], f);
    }
  }

  const FREE_SLOT: D.Slot := D.Slot(0, "", false)

  /** A freshly formatted volume: the free map in sector 0 and the root directory in sector 1,
      with room for sixteen entries of twenty bytes. */
  function Formatted(marked: seq<bool>, map0: Extent, root: Extent): FS {
    FS(marked, map[FREE_MAP_SECTOR := map0, ROOT_DIR_SECTOR := root], seq(16, _ => FREE_SLOT), map[], map[])
  }

  lemma FormatInv(size: nat, mapBytes: nat, b1: seq<bool>, k0: nat, b2: seq<bool>, k1: nat)
    requires size >= 2
    requires var b0 := Filled(seq(size, _ => false), 0, 2, true);
             Allocate(b0, BytesToSectors(mapBytes), true) == (b1, Some(k0))
    requires Allocate(b1, BytesToSectors(320), true) == (b2, Some(k1))
    ensures Inv(Formatted(b2, Extent(k0, mapBytes), Extent(k1, 320)))
  {
    var e0, e1 := Extent(k0, mapBytes), Extent(k1, 320);
    var none: map<nat, Extent> := map[];
    assert b1[0] && b1[1];
    var early := b1[1 := false];
    AddFile(seq(size, _ => false), early, none, 0, e0);
    AddFile(early, b2, none[0 := e0], 1, e1);
    assert Files(Formatted(b2, e0, e1)) == none[0 := e0][1 := e1];
  }

  const SMALL_MAP: seq<bool> := [true, true, true, true, false, false, false, false]

  /** A formatted volume of eight sectors. */
  const SMALL: FS := Formatted(SMALL_MAP, Extent(2, 4), Extent(3, 320))

  /** There, a file of one sector with a name of fifteen characters is not created, and sector 5
      is lost to it. */
  lemma CreateLoses(f: CreateFlags)
    requires f.dirOpened && f.mapWritten && f.memory && f.mapWrittenAgain
    ensures var (fs', ok) := Create(SMALL, "fifteen-letters", 512, f);
            && Inv(SMALL) && !ok && Inv(fs')
            && fs'.marked != SMALL.marked
            && 5 !in Leaked(SMALL.marked, Files(SMALL)) && 5 in Leaked(fs'.marked, Files(fs'))
  {
    SmallVolume(SMALL_MAP);
    SmallFound(f);
    CreateFails(SMALL, "fifteen-letters", 512, f);
    assert LostData(Find(SMALL, 512, f).value, 512, 5);
  }

  lemma SmallFound(f: CreateFlags)
    requires f.dirOpened && f.mapWritten && f.memory && f.mapWrittenAgain
    ensures Find(SMALL, 512, f).Some? && Find(SMALL, 512, f).value.start == 5
  {
    Fit(SMALL_MAP, 4);
    Fit(Filled(SMALL_MAP, 4, 1, true), 5);
  }

  lemma SmallVolume(b: seq<bool>)
    requires b == [true, true, true, true, false, false, false, false]
    ensures Inv(Formatted(b, Extent(2, 4), Extent(3, 320)))
  {
    var b0 := Filled(seq(8, _ => false), 0, 2, true);
    var b1 := Filled(b0, 2, 1, true);
    Fit(b0, 2);
    Fit(b1, 3);
    assert Filled(b1, 3, 1, true) == b;
    FormatInv(8, 4, b1, 2, b, 3);
  }

  /** One sector is allocated where the first free one is. */
  lemma Fit(b: seq<bool>, k: nat)
    requires k < |b| && !b[k] && forall i | 0 <= i < k :: b[i]
    ensures Allocate(b, 1, true) == (Filled(b, k, 1, true), Some(k))
  {
    forall j | 0 <= j < k ensures !AllAre(b, j, 1, false) { assert b[j]; }
    ScanIsFirstFit(b, 0, 1);
    FirstFitUnique(b, 0, 1, false, Some(k), ScanFrom(b, 0, 1));
  }

  // ---------------------------------------------------------------- the code itself

  /** The operations as sequences of effects, with the source's own order and undo steps. */
  class Volume {
    const freeMap: BitmapObject
    const root: D.Dir
    var disk: map<nat, Extent>
    var open: map<nat, Inode>
    var files: map<nat, File>

    ghost function View(): FS
      reads this, root, freeMap.bits
      requires freeMap.Valid()
    {
      FS(freeMap.View(), disk, root.slots, open, files)
    }

    ghost predicate Valid()
      reads this, root, freeMap.bits
    {
      freeMap.Valid() && Inv(View())
    }

    /** A volume with no file open. */
    constructor (freeMap: BitmapObject, disk: map<nat, Extent>, root: D.Dir)
      requires freeMap.Valid() && Inv(FS(freeMap.View(), disk, root.slots, map[], map[]))
      ensures this.freeMap == freeMap && this.root == root && Valid()
      ensures View() == FS(old(freeMap.View()), disk, old(root.slots), map[], map[])
    {
      this.freeMap := freeMap;
      this.disk := disk;
      this.root := root;
      open := map[];
      files := map[];
    }

    /** `free_map_allocate` */
    method FreeMapAllocate(cnt: nat, mapWritten: bool) returns (r: Option<nat>)
      requires freeMap.Valid()
      modifies freeMap.bits
      ensures (freeMap.View(), r) == Allocate(old(freeMap.View()), cnt, mapWritten)
    {
      r := freeMap.ScanAndFlip(0, cnt, false);
      ScanIsFirstFit(old(freeMap.View()), 0, cnt);
      FirstFitUnique(old(freeMap.View()), 0, cnt, false, r, ScanFrom(old(freeMap.View()), 0, cnt));
      if r.Some? && !mapWritten {
        freeMap.SetMultiple(r.value, cnt, false);
        r := None;
      }
    }

    /** `free_map_release` of sectors that are all marked, which is what it asserts. */
    method FreeMapRelease(sector: nat, cnt: nat)
      requires freeMap.Valid() && sector + cnt <= freeMap.bitCnt && AllAre(freeMap.View(), sector, cnt, true)
      modifies freeMap.bits
      ensures freeMap.View() == Filled(old(freeMap.View()), sector, cnt, false)
    {
      var anyFree := freeMap.Contains(sector, cnt, false);
      assert !anyFree;
      freeMap.SetMultiple(sector, cnt, false);
    }

    /** `inode_create` */
    method InodeCreate(sector: nat, length: nat, memory: bool, mapWritten: bool) returns (ok: bool)
      requires freeMap.Valid()
      modifies this`disk, freeMap.bits
      ensures var (b, r) := Allocate(old(freeMap.View()), BytesToSectors(length), mapWritten);
              && ok == (memory && r.Some?)
              && (ok ==> freeMap.View() == b && disk == old(disk)[sector := Extent(r.value, length)])
              && (!ok ==> freeMap.View() == old(freeMap.View()) && disk == old(disk))
    {
      ok := false;
      if memory {
        var start := FreeMapAllocate(BytesToSectors(length), mapWritten);
        if start.Some? {
          disk := disk[sector := Extent(start.value, length)];
          ok := true;
        }
      }
    }

    /** `file_close` with `inode_close`: no assertion of `free_map_release` can fail. */
    method FileClose(f: nat)
      requires Valid() && f in files
      modifies this, freeMap.bits
      ensures Possible(old(View()), OpClose(f)) && View() == Close(old(View()), f)
      ensures Valid()
    {
      CloseReleases(View(), f);
      FinalReleases(View(), f);
      CloseSteps(f);
    }

    method CloseSteps(f: nat)
      requires freeMap.Valid() && Possible(View(), OpClose(f))
      requires Final(View(), f) ==> Releasable(freeMap.View(), files[f].sector, open[files[f].sector].data)
      modifies this, freeMap.bits
      ensures View() == Close(old(View()), f)
    {
      var s := files[f].sector;
      AllowSteps(f);
      files := files - {f};
      InodeCloseSteps(s);
    }

    /** `inode_open` */
    method InodeOpenSteps(s: nat, memory: bool) returns (ok: bool)
      requires freeMap.Valid()
      modifies this`open
      ensures (View(), ok) == InodeOpen(old(View()), s, memory)
    {
      if s in open {
        open := open[s := open[s].(openCnt := open[s].openCnt + 1)];
        return true;
      }
      if !memory || s !in disk {
        return false;
      }
      open := open[s := Inode(1, false, 0, disk[s])];
      return true;
    }

    /** `inode_close` */
    method InodeCloseSteps(s: nat)
      requires freeMap.Valid() && s in open && open[s].openCnt >= 1
      requires open[s].openCnt == 1 && open[s].removed ==> Releasable(freeMap.View(), s, open[s].data)
      modifies this`open, freeMap.bits
      ensures View() == InodeClose(old(View()), s)
    {
      var i := open[s];
      if i.openCnt == 1 {
        open := open - {s};
        if i.removed {
          FreeMapRelease(s, 1);
          FreeMapRelease(i.data.start, BytesToSectors(i.data.length));
        }
      } else {
        open := open[s := i.(openCnt := i.openCnt - 1)];
      }
    }

    /** `file_deny_write` with `inode_deny_write`, whose assertion holds */
    method DenyWrite(f: nat)
      requires Valid() && f in files
      modifies this`files, this`open
      ensures Possible(old(View()), OpDeny(f, true)) && View() == SetDeny(old(View()), f, true)
      ensures Valid()
    {
      DenyKeeps(View(), f, true);
      DenySteps(f);
    }

    method DenySteps(f: nat)
      requires freeMap.Valid() && f in files && files[f].sector in open && Counted(View(), f)
      modifies this`files, this`open
      ensures View() == SetDeny(old(View()), f, true)
    {
      var s := files[f].sector;
      if !files[f].denyWrite {
        files := files[f := File(s, true)];
        open := open[s := open[s].(denyWriteCnt := open[s].denyWriteCnt + 1)];
        assert open[s].denyWriteCnt <= open[s].openCnt;
      }
    }

    /** `file_allow_write` with `inode_allow_write`, whose assertions hold */
    method AllowWrite(f: nat)
      requires Valid() && f in files
      modifies this`files, this`open
      ensures Possible(old(View()), OpDeny(f, false)) && View() == SetDeny(old(View()), f, false)
      ensures Valid()
    {
      DenyKeeps(View(), f, false);
      AllowSteps(f);
    }

    method AllowSteps(f: nat)
      requires freeMap.Valid() && f in files && files[f].sector in open && Counted(View(), f)
      modifies this`files, this`open
      ensures View() == SetDeny(old(View()), f, false)
    {
      var s := files[f].sector;
      if files[f].denyWrite {
        files := files[f := File(s, false)];
        assert 0 < open[s].denyWriteCnt <= open[s].openCnt;
        open := open[s := open[s].(denyWriteCnt := open[s].denyWriteCnt - 1)];
      }
    }

    /** `filesys_open` with `file_open` */
    method FilesysOpen(name: string, f: nat, dirOpened: bool, seen: nat, memory: bool, fileMemory: bool)
      returns (ok: bool)
      requires Valid() && f !in files
      modifies this, freeMap.bits
      ensures (View(), ok) == Open(old(View()), name, f, dirOpened, seen, memory, fileMemory)
      ensures Valid()
    {
      ApplyKeeps(View(), OpOpen(name, f, dirOpened, seen, memory, fileMemory));
      NamedReleasable(View());
      ok := OpenSteps(name, f, dirOpened, seen, memory, fileMemory);
    }

    method OpenSteps(name: string, f: nat, dirOpened: bool, seen: nat, memory: bool, fileMemory: bool)
      returns (ok: bool)
      requires freeMap.Valid() && CanRemove(View())
      modifies this, freeMap.bits
      ensures (View(), ok) == Open(old(View()), name, f, dirOpened, seen, memory, fileMemory)
    {
      if !dirOpened {
        return false;
      }
      var i := root.Lookup(name, seen);
      if i.None? {
        return false;
      }
      var s := root.slots[i.value].sector;
      ok := InodeOpenSteps(s, memory);
      if ok {
        if fileMemory {
          files := files[f := File(s, false)];
        } else {
          InodeCloseSteps(s);
          ok := false;
        }
      }
    }

    /** `filesys_remove` with `dir_remove` */
    method FilesysRemove(name: string, dirOpened: bool, seen: nat, memory: bool, dirWritten: bool)
      returns (ok: bool)
      requires Valid()
      modifies this, root, freeMap.bits
      ensures (View(), ok) == Remove(old(View()), name, dirOpened, seen, memory, dirWritten)
      ensures Valid()
    {
      ApplyKeeps(View(), OpRemove(name, dirOpened, seen, memory, dirWritten));
      NamedReleasable(View());
      ok := RemoveSteps(name, dirOpened, seen, memory, dirWritten);
    }

    method RemoveSteps(name: string, dirOpened: bool, seen: nat, memory: bool, dirWritten: bool)
      returns (ok: bool)
      requires freeMap.Valid() && CanRemove(View())
      modifies this, root, freeMap.bits
      ensures (View(), ok) == Remove(old(View()), name, dirOpened, seen, memory, dirWritten)
    {
      if !dirOpened {
        return false;
      }
      var i := root.Lookup(name, seen);
      if i.None? {
        return false;
      }
      var s := root.slots[i.value].sector;
      ok := InodeOpenSteps(s, memory);
      if ok {
        ok := root.Erase(i.value, dirWritten);
        if ok {
          open := open[s := open[s].(removed := true)];
        }
        InodeCloseSteps(s);
      }
    }

    /** `filesys_create` */
    method FilesysCreate(name: string, size: nat, f: CreateFlags) returns (success: bool)
      requires Valid()
      modifies this, root, freeMap.bits
      ensures (View(), success) == Create(old(View()), name, size, f)
      ensures Valid()
    {
      ApplyKeeps(View(), OpCreate(name, size, f));
      SystemMarked(View());
      success := CreateSteps(name, size, f);
    }

    /** Sector 0 is always in use, so zero can stand for "no header allocated". */
    method CreateSteps(name: string, size: nat, f: CreateFlags) returns (success: bool)
      requires freeMap.Valid() && freeMap.bitCnt > 0 && freeMap.View()[0]
      modifies this, root, freeMap.bits
      ensures (View(), success) == Create(old(View()), name, size, f)
    {
      var sector := 0;
      success := false;
      if f.dirOpened {
        var header := FreeMapAllocate(1, f.mapWritten);
        if header.Some? {
          sector := header.value;
          success := InodeCreate(sector, size, f.memory, f.mapWrittenAgain);
          if success {
            success := root.AddSteps(name, sector, f.lookupReads, f.scanReads, f.dirWritten);
          }
        }
      }
      if !success && sector != 0 {
        FreeMapRelease(sector, 1);
        assert Find(old(View()), size, f).None? ==> freeMap.View() == old(freeMap.View());
      }
    }
  }

  /** What the assertions of the two calls of `free_map_release` demand. */
  ghost predicate Releasable(b: seq<bool>, s: nat, e: Extent) {
    && s < |b| && b[s] && e.start + BytesToSectors(e.length) <= |b|
    && AllAre(Filled(b, s, 1, false), e.start, BytesToSectors(e.length), true)
  }

  /** They also hold when a file is removed that nobody has open. */
  ghost predicate CanRemove(fs: FS) {
    forall i: nat | i < |fs.dir| && fs.dir[i].inUse ::
      var s := fs.dir[i].sector;
      && s in fs.disk && Releasable(fs.marked, s, fs.disk[s])
      && (s in fs.open ==> !fs.open[s].removed && fs.open[s].openCnt >= 1)
  }

  lemma NamedReleasable(fs: FS)
    requires Inv(fs)
    ensures CanRemove(fs)
  {
    forall i: nat | i < |fs.dir| && fs.dir[i].inUse
      ensures var s := fs.dir[i].sector;
              && s in fs.disk && Releasable(fs.marked, s, fs.disk[s])
              && (s in fs.open ==> !fs.open[s].removed && fs.open[s].openCnt >= 1)
    {
      var s := fs.dir[i].sector;
      assert At(fs.dir, i, s) && s in Files(fs);
      DropFile(fs.marked, Files(fs), s);
      assert s in fs.open ==> OpenInv(fs, s);
    }
  }

  /** The assertions of `free_map_release` hold at the last close of a removed file. */
  lemma FinalReleases(fs: FS, f: nat)
    requires Inv(fs) && f in fs.files
    ensures Final(fs, f) ==> Releasable(fs.marked, fs.files[f].sector, fs.open[fs.files[f].sector].data)
  {
    if Final(fs, f) {
      var s := fs.files[f].sector;
      assert OpenInv(fs, s);
      assert s in Files(fs) && Files(fs)[s] == fs.open[s].data;
      DropFile(fs.marked, Files(fs), s);
    }
  }

  lemma SystemMarked(fs: FS)
    requires Inv(fs)
    ensures |fs.marked| > 0 && fs.marked[0]
  {
    assert InRegion(0, Files(fs)[0], 0);
  }
}
