/** Hash tables (src/lib/kernel/hash.c) as finite maps over the equivalence that `less` induces. */
module HashTable {
  import opened Common
  import opened Nonlinear
  import opened Bits

  // ---------------------------------------------------------------- the caller's functions

  /** What the caller promises: being neither less nor greater is an equivalence, and equivalent
      elements have equal hashes. */
  ghost predicate Coherent<E(!new)>(hash: E -> nat, less: Order<E>) {
    && (forall a: E :: !less(a, a))
    && (forall a: E, b: E, c: E {:trigger Equivalent(less, a, b), Equivalent(less, b, c)} ::
          Equivalent(less, a, b) && Equivalent(less, b, c) ==> Equivalent(less, a, c))
    && (forall a: E, b: E {:trigger Equivalent(less, a, b)} :: Equivalent(less, a, b) ==> hash(a) == hash(b))
  }

  // ---------------------------------------------------------------- the abstract map

  /** A table never holds two equivalent elements. */
  ghost predicate Keyed<E>(less: Order<E>, s: set<E>) {
    forall a, b | a in s && b in s && Equivalent(less, a, b) :: a == b
  }

  /** `r` is what a search for `e` finds. */
  ghost predicate Finds<E>(less: Order<E>, s: set<E>, e: E, r: Option<E>) {
    if r.Some? then r.value in s && Equivalent(less, r.value, e)
    else forall a | a in s :: !Equivalent(less, a, e)
  }

  lemma FindsOne<E(!new)>(hash: E -> nat, less: Order<E>, s: set<E>, e: E, r: Option<E>, r': Option<E>)
    requires Coherent(hash, less) && Keyed(less, s) && Finds(less, s, e, r) && Finds(less, s, e, r')
    ensures r == r'
  {
    if r.Some? && r'.Some? {
      assert Equivalent(less, r.value, e) && Equivalent(less, e, r'.value);
    }
  }

  lemma Chain<E(!new)>(hash: E -> nat, less: Order<E>, a: E, b: E, c: E)
    requires Coherent(hash, less) && Equivalent(less, a, b) && Equivalent(less, b, c)
    ensures Equivalent(less, a, c)
  {}

  /** Set, as a map from keys: what is found under `f` after `e` took the place of `prev`. */
  lemma SetThenFind<E(!new)>(hash: E -> nat, less: Order<E>, s: set<E>, e: E, prev: Option<E>, f: E, r: Option<E>)
    requires Coherent(hash, less) && Keyed(less, s) && Finds(less, s, e, prev) && Finds(less, s, f, r)
    ensures var s' := (s - Holding(prev)) + {e};
            Keyed(less, s') && Finds(less, s', f, if Equivalent(less, e, f) then Some(e) else r)
  {
    var s' := (s - Holding(prev)) + {e};
    forall a | a in s && Equivalent(less, a, e) ensures a !in s' || a == e {
      assert Equivalent(less, a, e) && prev.Some?;
      FindsOne(hash, less, s, e, prev, Some(a));
    }
    forall a | a in s' && Equivalent(less, a, f) ensures Equivalent(less, e, f) ==> a == e {
      if Equivalent(less, e, f) { assert Equivalent(less, a, f) && Equivalent(less, f, e); }
    }
    if r.Some? && prev.Some? && r.value == prev.value { Chain(hash, less, e, prev.value, f); }
  }

  /** Removing what was found under `e` leaves the other keys alone. */
  lemma RemoveThenFind<E(!new)>(hash: E -> nat, less: Order<E>, s: set<E>, e: E, prev: Option<E>, f: E, r: Option<E>)
    requires Coherent(hash, less) && Keyed(less, s) && Finds(less, s, e, prev) && Finds(less, s, f, r)
    ensures var s' := s - Holding(prev);
            Keyed(less, s') && Finds(less, s', f, if Equivalent(less, e, f) then None else r)
  {
    if Equivalent(less, e, f) {
      forall a | a in s && Equivalent(less, a, f) ensures a in Holding(prev) {
        assert Equivalent(less, a, f) && Equivalent(less, f, e);
        FindsOne(hash, less, s, e, prev, Some(a));
      }
    }
    if r.Some? && prev.Some? && r.value == prev.value { Chain(hash, less, e, prev.value, f); }
  }

  ghost function Holding<E>(r: Option<E>): set<E> { if r.Some? then {r.value} else {} }

  // ---------------------------------------------------------------- bucket counts

  lemma {:induction false} AndSelf(x: nat)
    ensures And(x, x) == x
  {
    if x > 0 { AndSelf(x / 2); }
  }

  lemma OddOff(x: nat, m: nat)
    requires x == 2 * m + 1
    ensures And(x, x - 1) == 2 * m
  {
    AndSelf(m);
    assert x / 2 == m && (x - 1) / 2 == m && (x - 1) % 2 == 0;
    assert (x % 2) * ((x - 1) % 2) == 0;
  }

  lemma EvenOff(x: nat, m: nat)
    requires m > 0 && x == 2 * m
    ensures And(x, x - 1) == 2 * And(m, m - 1)
  {
    assert x / 2 == m && (x - 1) / 2 == m - 1 && x % 2 == 0;
    assert (x % 2) * ((x - 1) % 2) == 0;
  }

  /** `turn_off_least_1bit` keeps the leading bit of anything but a power of two, which it clears. */
  lemma {:induction false} TurnOffLeast(x: nat, k: nat)
    requires Pow2(k) <= x < Pow2(k + 1)
    ensures x > 0 && And(x, x - 1) < x
    ensures And(x, x - 1) == 0 <==> x == Pow2(k)
    ensures And(x, x - 1) != 0 ==> And(x, x - 1) >= Pow2(k)
  {
    PowPositive(k);
    if k > 0 {
      var m := x / 2;
      TurnOffLeast(m, k - 1);
      if x % 2 == 1 { OddOff(x, m); } else { EvenOff(x, m); }
    } else {
      assert x == 1;
    }
  }

  lemma {:induction false} LeadingBit(x: nat) returns (k: nat)
    requires x > 0
    ensures Pow2(k) <= x < Pow2(k + 1) && (x >= 4 ==> k >= 2)
  {
    if x == 1 { k := 0; } else { k := LeadingBit(x / 2); k := k + 1; }
  }

  /** The loop of `rehash` that rounds down to a power of two. */
  method RoundDown(cnt: nat) returns (n: nat, ghost k: nat)
    requires cnt >= 4
    ensures k >= 2 && n == Pow2(k) && n <= cnt < 2 * n
  {
    n := cnt;
    k := LeadingBit(cnt);
    TurnOffLeast(n, k);
    while And(n, n - 1) != 0
      invariant Pow2(k) <= n <= cnt < Pow2(k + 1) && n > 0
      decreases n
    {
      TurnOffLeast(n, k);
      n := And(n, n - 1);
    }
    TurnOffLeast(n, k);
  }

  // ---------------------------------------------------------------- buckets

  /** `hash & (bucket_cnt - 1)` */
  function Index<E>(hash: E -> nat, cnt: nat, e: E): (i: nat)
    requires cnt > 0
    ensures i < cnt
  {
    hash(e) % cnt
  }

  /** No two elements of a bucket are equivalent. */
  ghost predicate Apart<E>(less: Order<E>, s: seq<E>) {
    forall j, k | 0 <= j < k < |s| :: !Equivalent(less, s[j], s[k])
  }

  /** Every element is in the bucket that its hash selects, and has no equivalent there. */
  ghost predicate Placed<E>(hash: E -> nat, less: Order<E>, b: seq<seq<E>>) {
    && |b| > 0
    && (forall i, e | 0 <= i < |b| && e in b[i] :: Index(hash, |b|, e) == i)
    && (forall i | 0 <= i < |b| :: Apart(less, b[i]))
  }

  ghost predicate InTable<E>(hash: E -> nat, b: seq<seq<E>>, e: E) {
    |b| > 0 && e in b[Index(hash, |b|, e)]
  }

  /** The buckets hold the elements of `s`. */
  ghost predicate Stores<E(!new)>(hash: E -> nat, b: seq<seq<E>>, s: set<E>) {
    forall e: E {:trigger InTable(hash, b, e)} :: InTable(hash, b, e) <==> e in s
  }

  lemma StoredIsKeyed<E(!new)>(hash: E -> nat, less: Order<E>, b: seq<seq<E>>, s: set<E>)
    requires Coherent(hash, less) && Placed(hash, less, b) && Stores(hash, b, s)
    ensures Keyed(less, s)
  {
    forall x, y | x in s && y in s && Equivalent(less, x, y) ensures x == y {
      assert InTable(hash, b, x) && InTable(hash, b, y);
      var bucket := b[Index(hash, |b|, x)];
      var j :| 0 <= j < |bucket| && bucket[j] == x;
      var k :| 0 <= k < |bucket| && bucket[k] == y;
      assert Equivalent(less, y, x);
    }
  }

  /** Pushing an element that has no equivalent in the table. */
  lemma Pushed<E(!new)>(hash: E -> nat, less: Order<E>, b: seq<seq<E>>, s: set<E>, e: E)
    requires Coherent(hash, less) && Placed(hash, less, b) && Stores(hash, b, s)
    requires forall x | x in s :: !Equivalent(less, x, e)
    ensures var i := Index(hash, |b|, e); var b' := b[i := [e] + b[i]];
            Placed(hash, less, b') && Stores(hash, b', s + {e}) && e !in s
  {
    var i := Index(hash, |b|, e);
    var b' := b[i := [e] + b[i]];
    forall x | x in b[i] ensures !Equivalent(less, e, x) { assert InTable(hash, b, x); }
    assert Apart(less, b'[i]);
    forall x: E ensures InTable(hash, b', x) <==> x in s + {e} { assert InTable(hash, b, x) <==> x in s; }
    assert Equivalent(less, e, e);
  }

  lemma {:induction false} RemovedKeeps<E(!new)>(hash: E -> nat, less: Order<E>, s: seq<E>, e: E)
    requires Coherent(hash, less) && Apart(less, s)
    ensures Apart(less, Removed(s, e)) && forall x :: x in Removed(s, e) <==> x in s && x != e
  {
    if s != [] {
      var t := s[1..];
      assert forall j | 0 <= j < |t| :: t[j] == s[j + 1];
      RemovedKeeps(hash, less, t, e);
      forall x | x in t ensures !Equivalent(less, s[0], x) && x != s[0] {
        var j :| 0 <= j < |t| && t[j] == x;
        assert !Equivalent(less, s[0], s[j + 1]) && Equivalent(less, s[0], s[0]);
      }
      assert s == [s[0]] + t;
      ApartCons(less, s[0], Removed(t, e));
    }
  }

  lemma ApartCons<E>(less: Order<E>, e: E, s: seq<E>)
    requires Apart(less, s)
    ensures (forall x | x in s :: !Equivalent(less, e, x)) ==> Apart(less, [e] + s)
  {}

  lemma Unlinked<E(!new)>(hash: E -> nat, less: Order<E>, b: seq<seq<E>>, s: set<E>, e: E)
    requires Coherent(hash, less) && Placed(hash, less, b) && Stores(hash, b, s) && e in s
    ensures var i := Index(hash, |b|, e); var b' := b[i := Removed(b[i], e)];
            Placed(hash, less, b') && Stores(hash, b', s - {e})
  {
    var i := Index(hash, |b|, e);
    var b' := b[i := Removed(b[i], e)];
    RemovedKeeps(hash, less, b[i], e);
    forall x: E ensures InTable(hash, b', x) <==> x in s - {e} { assert InTable(hash, b, x) <==> x in s; }
  }

  // ---------------------------------------------------------------- rehash

  /** Whether the element has been moved when the cursor is at position `j` of bucket `i`. */
  ghost predicate Moved<E>(hash: E -> nat, b: seq<seq<E>>, i: nat, j: nat, e: E)
    requires |b| > 0 && i < |b| && j <= |b[i]|
  {
    var k := Index(hash, |b|, e);
    InTable(hash, b, e) && (k < i || (k == i && e in b[i][..j]))
  }

  /** The set of elements moved so far, of which the new buckets hold the same. */
  ghost predicate Transferred<E(!new)>(hash: E -> nat, b: seq<seq<E>>, i: nat, j: nat, s: set<E>)
    requires |b| > 0 && i < |b| && j <= |b[i]|
  {
    forall e: E {:trigger Moved(hash, b, i, j, e)} :: Moved(hash, b, i, j, e) <==> e in s
  }

  lemma MoveNext<E(!new)>(hash: E -> nat, less: Order<E>, b: seq<seq<E>>, i: nat, j: nat, s: set<E>)
    requires Coherent(hash, less) && Placed(hash, less, b) && i < |b| && j < |b[i]|
    requires Transferred(hash, b, i, j, s)
    ensures Transferred(hash, b, i, j + 1, s + {b[i][j]})
    ensures forall x | x in s :: !Equivalent(less, x, b[i][j])
  {
    var e := b[i][j];
    assert Index(hash, |b|, e) == i;
    assert b[i][..j + 1] == b[i][..j] + [e];
    forall x: E ensures Moved(hash, b, i, j + 1, x) <==> x in s + {e} {
      assert Moved(hash, b, i, j, x) <==> x in s;
    }
    forall x | x in s ensures !Equivalent(less, x, e) {
      assert Moved(hash, b, i, j, x);
      if Index(hash, |b|, x) == i {
        var k :| 0 <= k < j && b[i][k] == x;
        assert !Equivalent(less, b[i][k], b[i][j]);
      }
    }
  }

  lemma MoveStart<E(!new)>(hash: E -> nat, b: seq<seq<E>>)
    requires |b| > 0
    ensures Transferred(hash, b, 0, 0, {})
  {}

  lemma NextBucket<E(!new)>(hash: E -> nat, less: Order<E>, b: seq<seq<E>>, i: nat, s: set<E>)
    requires Placed(hash, less, b) && i + 1 < |b| && Transferred(hash, b, i, |b[i]|, s)
    ensures Transferred(hash, b, i + 1, 0, s)
  {
    assert b[i][..|b[i]|] == b[i];
    forall e: E ensures Moved(hash, b, i + 1, 0, e) <==> e in s { assert Moved(hash, b, i, |b[i]|, e) <==> e in s; }
  }

  lemma AllMoved<E(!new)>(hash: E -> nat, b: seq<seq<E>>, s: set<E>, all: set<E>)
    requires |b| > 0 && Transferred(hash, b, |b| - 1, |b[|b| - 1]|, s) && Stores(hash, b, all)
    ensures s == all
  {
    var i := |b| - 1;
    assert b[i][..|b[i]|] == b[i];
    forall e: E ensures e in s <==> e in all {
      assert Moved(hash, b, i, |b[i]|, e) <==> e in s;
      assert InTable(hash, b, e) <==> e in all;
    }
  }

  class HashTable<E(!new, ==)> {
    const hash: E -> nat
    const less: Order<E>
    var elemCnt: nat
    var buckets: seq<seq<E>>
    ghost var k: nat
    ghost var contents: set<E>

    /** At least four buckets, a power of two, that hold the contents. */
    ghost predicate Valid()
      reads this
    {
      && Coherent(hash, less) && k >= 2 && |buckets| == Pow2(k) >= 4
      && Placed(hash, less, buckets) && Stores(hash, buckets, contents)
      && elemCnt == |contents|
    }

    constructor (hash: E -> nat, less: Order<E>)
      requires Coherent(hash, less)
      ensures Valid() && contents == {} && this.hash == hash && this.less == less
    {
      this.hash := hash;
      this.less := less;
      elemCnt := 0;
      buckets := [[], [], [], []];
      k := 2;
      contents := {};
      assert Pow2(2) == 4;
    }

    /** `find_bucket` */
    method FindBucket(e: E) returns (i: nat)
      requires Valid()
      ensures i == Index(hash, |buckets|, e)
    {
      MaskIsMod(hash(e), k);
      i := And(hash(e), |buckets| - 1);
    }

    /** `find_elem` */
    method FindElem(i: nat, e: E) returns (r: Option<E>)
      requires Valid() && i == Index(hash, |buckets|, e)
      ensures Finds(less, contents, e, r)
    {
      var bucket := buckets[i];
      var j := 0;
      while j < |bucket|
        invariant 0 <= j <= |bucket| && forall x | x in bucket[..j] :: !Equivalent(less, x, e)
      {
        if !less(bucket[j], e) && !less(e, bucket[j]) {
          assert InTable(hash, buckets, bucket[j]);
          return Some(bucket[j]);
        }
        j := j + 1;
      }
      forall x | x in contents ensures !Equivalent(less, x, e) {
        assert InTable(hash, buckets, x);
      }
      return None;
    }

    method InsertElem(i: nat, e: E)
      requires Valid() && i == Index(hash, |buckets|, e) && forall x | x in contents :: !Equivalent(less, x, e)
      modifies this
      ensures Valid() && contents == old(contents) + {e} && e !in old(contents)
    {
      Pushed(hash, less, buckets, contents, e);
      elemCnt := elemCnt + 1;
      buckets := buckets[i := [e] + buckets[i]];
      contents := contents + {e};
    }

    method RemoveElem(e: E)
      requires Valid() && e in contents
      modifies this
      ensures Valid() && contents == old(contents) - {e} && |buckets| == |old(buckets)|
    {
      Unlinked(hash, less, buckets, contents, e);
      var i := FindBucket(e);
      elemCnt := elemCnt - 1;
      buckets := buckets[i := Removed(buckets[i], e)];
      contents := contents - {e};
    }

    /** `hash_insert`; `memory` says whether new buckets can be allocated. */
    method Insert(e: E, memory: bool) returns (prev: Option<E>)
      requires Valid()
      modifies this
      ensures Valid() && Finds(less, old(contents), e, prev)
      ensures contents == if prev.None? then old(contents) + {e} else old(contents)
    {
      var i := FindBucket(e);
      prev := FindElem(i, e);
      if prev.None? {
        InsertElem(i, e);
      }
      Rehash(memory);
    }

    /** `hash_replace` */
    method Replace(e: E, memory: bool) returns (prev: Option<E>)
      requires Valid()
      modifies this
      ensures Valid() && Finds(less, old(contents), e, prev)
      ensures contents == (old(contents) - Holding(prev)) + {e}
    {
      var i := FindBucket(e);
      prev := FindElem(i, e);
      if prev.Some? {
        StoredIsKeyed(hash, less, buckets, contents);
        RemoveThenFind(hash, less, contents, e, prev, e, prev);
        assert Equivalent(less, e, e);
        RemoveElem(prev.value);
      }
      InsertElem(i, e);
      Rehash(memory);
    }

    /** `hash_find` */
    method Find(e: E) returns (r: Option<E>)
      requires Valid()
      ensures Finds(less, contents, e, r)
    {
      var i := FindBucket(e);
      r := FindElem(i, e);
    }

    /** `hash_delete` */
    method Delete(e: E, memory: bool) returns (found: Option<E>)
      requires Valid()
      modifies this
      ensures Valid() && Finds(less, old(contents), e, found)
      ensures contents == old(contents) - Holding(found)
    {
      var i := FindBucket(e);
      found := FindElem(i, e);
      if found.Some? {
        RemoveElem(found.value);
        Rehash(memory);
      }
    }

    /** `rehash`: the elements stay; the bucket count becomes the power of two next below half
        their number, but at least four, or stays as it is if there is no memory. */
    method Rehash(memory: bool)
      requires Valid()
      modifies `buckets, `k
      ensures Valid()
      ensures memory ==> 4 <= |buckets| && (|buckets| <= elemCnt / 2 < 2 * |buckets| || (|buckets| == 4 && elemCnt < 8))
      ensures !memory ==> buckets == old(buckets)
    {
      var want := elemCnt / 2;
      if want < 4 {
        want := 4;
      }
      var n, l := RoundDown(want);
      if n == |buckets| || !memory {
        return;
      }
      var moved := MoveAll(n, l);
      buckets := moved;
      k := l;
    }

    /** The loops that move every element into its new bucket. */
    method MoveAll(n: nat, ghost l: nat) returns (moved: seq<seq<E>>)
      requires Valid() && n == Pow2(l) >= 4
      ensures |moved| == n && Placed(hash, less, moved) && Stores(hash, moved, contents)
    {
      moved := seq(n, _ => []);
      ghost var done: set<E> := {};
      MoveStart(hash, buckets);
      var i := 0;
      while i < |buckets|
        invariant 0 <= i <= |buckets| && |moved| == n
        invariant Placed(hash, less, moved) && Stores(hash, moved, done)
        invariant i < |buckets| ==> Transferred(hash, buckets, i, 0, done)
        invariant i == |buckets| ==> done == contents
      {
        moved, done := MoveBucket(i, moved, l, done);
        if i + 1 < |buckets| {
          NextBucket(hash, less, buckets, i, done);
        } else {
          AllMoved(hash, buckets, done, contents);
        }
        i := i + 1;
      }
    }

    method MoveBucket(i: nat, start: seq<seq<E>>, ghost l: nat, ghost before: set<E>)
      returns (moved: seq<seq<E>>, ghost done: set<E>)
      requires Valid() && i < |buckets| && |start| == Pow2(l) && Placed(hash, less, start)
      requires Stores(hash, start, before) && Transferred(hash, buckets, i, 0, before)
      ensures |moved| == |start| && Placed(hash, less, moved)
      ensures Stores(hash, moved, done) && Transferred(hash, buckets, i, |buckets[i]|, done)
    {
      moved, done := start, before;
      var j := 0;
      while j < |buckets[i]|
        invariant 0 <= j <= |buckets[i]| && |moved| == |start| && Placed(hash, less, moved)
        invariant Stores(hash, moved, done) && Transferred(hash, buckets, i, j, done)
      {
        var e := buckets[i][j];
        MoveNext(hash, less, buckets, i, j, done);
        Pushed(hash, less, moved, done, e);
        MaskIsMod(hash(e), l);
        var to := And(hash(e), |moved| - 1);
        moved := moved[to := [e] + moved[to]];
        done := done + {e};
        j := j + 1;
      }
    }
  }

  /** `hash_init`: there is no table without memory for its first four buckets. */
  method HashInit<E(!new, ==)>(hash: E -> nat, less: Order<E>, memory: bool) returns (r: HashTable?<E>)
    requires Coherent(hash, less)
    ensures r == null <==> !memory
    ensures r != null ==> fresh(r) && r.Valid() && r.contents == {} && r.hash == hash && r.less == less
  {
    if !memory {
      return null;
    }
    r := new HashTable(hash, less);
  }

  // ---------------------------------------------------------------- iteration

  function Concat<E>(b: seq<seq<E>>): seq<E> {
    if b == [] then [] else b[0] + Concat(b[1..])
  }

  lemma {:induction false} ConcatHas<E>(b: seq<seq<E>>, e: E)
    ensures e in Concat(b) <==> exists i :: 0 <= i < |b| && e in b[i]
  {
    if b != [] {
      ConcatHas(b[1..], e);
      if e in Concat(b[1..]) {
        var i :| 0 <= i < |b[1..]| && e in b[1..][i];
        assert e in b[i + 1];
      }
      if i :| 1 <= i < |b| && e in b[i] { assert e in b[1..][i - 1]; }
    }
  }

  lemma {:induction false} ConcatOnce<E(!new)>(hash: E -> nat, less: Order<E>, b: seq<seq<E>>, i: nat)
    requires Coherent(hash, less) && Placed(hash, less, b) && i <= |b|
    ensures NoDup(Concat(b[i..])) && forall e | e in Concat(b[i..]) :: Index(hash, |b|, e) >= i
    decreases |b| - i
  {
    if i < |b| {
      assert b[i..][0] == b[i] && b[i..][1..] == b[i + 1..];
      ConcatOnce(hash, less, b, i + 1);
      forall j, k | 0 <= j < k < |b[i]| ensures b[i][j] != b[i][k] {
        assert !Equivalent(less, b[i][j], b[i][k]) && Equivalent(less, b[i][j], b[i][j]);
      }
      var rest := Concat(b[i + 1..]);
      forall j, k | 0 <= j < |b[i]| && 0 <= k < |rest| ensures b[i][j] != rest[k] {
        assert b[i][j] in b[i] && rest[k] in rest;
      }
    }
  }

  /** The elements from a position on. */
  function From<E>(b: seq<seq<E>>, bucket: nat, pos: nat): seq<E>
    requires bucket < |b| && pos <= |b[bucket]|
  {
    b[bucket][pos..] + Concat(b[bucket + 1..])
  }

  lemma FromHead<E>(b: seq<seq<E>>, bucket: nat, pos: nat)
    requires bucket < |b| && pos < |b[bucket]|
    ensures From(b, bucket, pos) == [b[bucket][pos]] + From(b, bucket, pos + 1)
  {}

  lemma FromEnd<E>(b: seq<seq<E>>, bucket: nat)
    requires bucket < |b|
    ensures From(b, bucket, |b[bucket]|) == if bucket + 1 < |b| then From(b, bucket + 1, 0) else []
  {
    assert b[bucket][|b[bucket]|..] == [];
    if bucket + 1 < |b| {
      assert b[bucket + 1..][1..] == b[bucket + 2..];
      assert b[bucket + 1][0..] == b[bucket + 1];
    }
  }

  /** From the first position on, every element of the table comes once. */
  lemma FromStart<E(!new)>(hash: E -> nat, less: Order<E>, b: seq<seq<E>>, s: set<E>)
    requires Coherent(hash, less) && Placed(hash, less, b) && Stores(hash, b, s)
    ensures NoDup(From(b, 0, 0)) && forall e: E :: e in From(b, 0, 0) <==> e in s
  {
    assert b[0][0..] == b[0] && b[0..] == b;
    assert From(b, 0, 0) == Concat(b);
    ConcatOnce(hash, less, b, 0);
    forall e: E ensures e in Concat(b) <==> e in s { ConcatStores(hash, less, b, s, e); }
  }

  lemma ConcatStores<E(!new)>(hash: E -> nat, less: Order<E>, b: seq<seq<E>>, s: set<E>, e: E)
    requires Placed(hash, less, b) && Stores(hash, b, s)
    ensures e in Concat(b) <==> e in s
  {
    ConcatHas(b, e);
    assert InTable(hash, b, e) <==> e in s;
  }

  /** The loop of `hash_next`, which passes over the ends of buckets. */
  method SkipEmpty<E>(b: seq<seq<E>>, start: nat, ofs: nat) returns (bucket: nat, pos: nat, ended: bool)
    requires start < |b| && ofs <= |b[start]|
    ensures bucket < |b| && ended == (From(b, start, ofs) == [])
    ensures !ended ==> pos < |b[bucket]| && From(b, bucket, pos) == From(b, start, ofs)
  {
    bucket, pos, ended := start, ofs, false;
    while pos == |b[bucket]|
      invariant bucket < |b| && pos <= |b[bucket]| && From(b, bucket, pos) == From(b, start, ofs)
      decreases |b| - bucket
    {
      FromEnd(b, bucket);
      if bucket + 1 >= |b| {
        ended := true;
        return;
      }
      bucket, pos := bucket + 1, 0;
    }
  }

  /** `struct hash_iterator`; position -1 is the list head that `hash_first` starts from. */
  class HashIterator<E(!new, ==)> {
    const table: HashTable<E>
    var bucket: nat
    var pos: int
    var ended: bool

    ghost predicate Valid()
      reads this, table
    {
      table.Valid() && bucket < |table.buckets| && -1 <= pos
      && (!ended ==> pos < |table.buckets[bucket]|)
    }

    /** What is still to come. */
    ghost function Left(): seq<E>
      reads this, table
      requires Valid()
    {
      if ended then [] else From(table.buckets, bucket, pos + 1)
    }

    /** `hash_first`: every element of the table is to come, once. */
    constructor (table: HashTable<E>)
      requires table.Valid()
      ensures Valid() && this.table == table && NoDup(Left())
      ensures forall e: E :: e in Left() <==> e in table.contents
    {
      this.table := table;
      bucket := 0;
      pos := -1;
      ended := false;
      new;
      FromStart(table.hash, table.less, table.buckets, table.contents);
    }

    /** `hash_next`: the next element, or nothing when none is left. */
    method Next() returns (r: Option<E>)
      requires Valid() && !ended
      modifies this
      ensures Valid()
      ensures old(Left()) == [] ==> r.None? && ended
      ensures old(Left()) != [] ==> r == Some(old(Left())[0]) && Left() == old(Left())[1..]
    {
      bucket, pos, ended := SkipEmpty(table.buckets, bucket, pos + 1);
      if ended {
        return None;
      }
      FromHead(table.buckets, bucket, pos);
      return Some(table.buckets[bucket][pos]);
    }
  }
}
