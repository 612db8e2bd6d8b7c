/** Who owns which sector: the free map against the inodes on disk. */
module Ownership {
  import opened Common
  import opened Bitmap
  import opened InodeIO

  /** Sector `i` is the header at `h` or part of the data extent `e`. */
  predicate InRegion(h: nat, e: Extent, i: int) {
    i == h || e.start <= i < e.start + BytesToSectors(e.length)
  }

  /** The header of a file is not inside its own data. */
  predicate Apart(h: nat, e: Extent) {
    !(e.start <= h < e.start + BytesToSectors(e.length))
  }

  ghost predicate Marked(b: seq<bool>, headers: map<nat, Extent>) {
    && (forall h | h in headers :: headers[h].start + BytesToSectors(headers[h].length) <= |b|)
    && forall h, i: int {:trigger InRegion(h, headers[h], i)} | h in headers && InRegion(h, headers[h], i) ::
      0 <= i < |b| && b[i]
  }

  ghost predicate Exclusive(headers: map<nat, Extent>) {
    && (forall h | h in headers :: Apart(h, headers[h]))
    && (forall h, g, i: int {:trigger InRegion(h, headers[h], i), InRegion(g, headers[g], i)} |
          h in headers && g in headers
          && InRegion(h, headers[h], i) && InRegion(g, headers[g], i) :: h == g)
  }

  /** No sector has two owners and every owned sector is marked. */
  ghost predicate Owned(b: seq<bool>, headers: map<nat, Extent>) {
    Marked(b, headers) && Exclusive(headers)
  }

  /** Sectors that are marked but belong to no file. */
  ghost function Leaked(b: seq<bool>, headers: map<nat, Extent>): set<int> {
    set i: int | 0 <= i < |b| && b[i] && !(exists h :: h in headers && InRegion(h, headers[h], i))
  }

  // ---------------------------------------------------------------- allocation by first fit

  function ScanFrom(b: seq<bool>, i: nat, cnt: nat): (r: Option<nat>)
    decreases |b| + 1 - i
  {
    if i + cnt > |b| then None
    else if AllAre(b, i, cnt, false) then Some(i)
    else ScanFrom(b, i + 1, cnt)
  }

  lemma {:induction false} ScanIsFirstFit(b: seq<bool>, i: nat, cnt: nat)
    ensures FirstFit(b, i, cnt, false, ScanFrom(b, i, cnt))
    decreases |b| + 1 - i
  {
    if i + cnt > |b| {
    } else if AllAre(b, i, cnt, false) {
    } else {
      ScanIsFirstFit(b, i + 1, cnt);
    }
  }

  /** A new file on fresh sectors joins the others. */
  lemma AddFile(b0: seq<bool>, b: seq<bool>, headers: map<nat, Extent>, h: nat, e: Extent)
    requires Owned(b0, headers) && |b| == |b0|
    requires forall i | 0 <= i < |b| && b0[i] :: b[i]
    requires forall i: int | InRegion(h, e, i) :: 0 <= i < |b| && !b0[i] && b[i]
    requires Apart(h, e) && e.start + BytesToSectors(e.length) <= |b|
    ensures h !in headers
    ensures Owned(b, headers[h := e])
  {
    assert InRegion(h, e, h);
    if h in headers { assert InRegion(h, headers[h], h); }
    var hs := headers[h := e];
    forall g, i: int | g in hs && InRegion(g, hs[g], i) ensures 0 <= i < |b| && b[i] {
      if g != h { assert InRegion(g, headers[g], i); }
    }
    forall g, f, i: int | g in hs && f in hs && InRegion(g, hs[g], i) && InRegion(f, hs[f], i)
      ensures g == f
    {
      if g != h { assert InRegion(g, headers[g], i); }
      if f != h { assert InRegion(f, headers[f], i); }
    }
  }

  /** Giving a file back frees exactly its own sectors. */
  lemma DropFile(b: seq<bool>, headers: map<nat, Extent>, h: nat)
    requires Owned(b, headers) && h in headers
    ensures var e := headers[h]; var n := BytesToSectors(e.length);
            && h < |b| && b[h]
            && e.start + n <= |b|
            && AllAre(Filled(b, h, 1, false), e.start, n, true)
            && Owned(Freed(b, h, e), headers - {h})
  {
    var e := headers[h];
    var n := BytesToSectors(e.length);
    assert InRegion(h, e, h);
    forall i | e.start <= i < e.start + n ensures Filled(b, h, 1, false)[i] {
      assert InRegion(h, e, i);
    }
    var hs, b' := headers - {h}, Freed(b, h, e);
    forall g, i: int | g in hs && InRegion(g, hs[g], i) ensures 0 <= i < |b'| && b'[i] {
      assert InRegion(g, headers[g], i);
      assert !InRegion(h, e, i);
    }
    forall g, f, i: int | g in hs && f in hs && InRegion(g, hs[g], i) && InRegion(f, hs[f], i)
      ensures g == f
    {
      assert InRegion(g, headers[g], i) && InRegion(f, headers[f], i);
    }
  }

  /** A file that is forgotten, but not given back, leaks exactly its own sectors. */
  lemma ForgetFile(b: seq<bool>, headers: map<nat, Extent>, h: nat)
    requires Owned(b, headers) && h in headers
    ensures Owned(b, headers - {h})
    ensures forall i: int :: i in Leaked(b, headers - {h}) <==> i in Leaked(b, headers) || InRegion(h, headers[h], i)
  {
    var hs := headers - {h};
    forall i: int ensures i in Leaked(b, hs) <==> i in Leaked(b, headers) || InRegion(h, headers[h], i) {
      if g :| g in hs && InRegion(g, hs[g], i) { assert InRegion(g, headers[g], i); }
      if g :| g in headers && g != h && InRegion(g, headers[g], i) { assert InRegion(g, hs[g], i); }
    }
  }

  /** The free map after the two releases of `inode_close`. */
  ghost function Freed(b: seq<bool>, h: nat, e: Extent): (r: seq<bool>)
    ensures |r| == |b|
    ensures forall i | 0 <= i < |b| :: r[i] == (b[i] && !InRegion(h, e, i))
  {
    seq(|b|, i requires 0 <= i < |b| => b[i] && !InRegion(h, e, i))
  }
}
