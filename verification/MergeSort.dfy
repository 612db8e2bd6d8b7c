/** The values computed by the natural merge sort of src/lib/kernel/list.c, on sequences,
    and why they are a stable sort reached in finitely many passes. */
module MergeSort {
  import opened Common

  /** `less` is a strict weak order on the elements of `S`. */
  ghost predicate WeakOrder<T>(less: Order<T>, S: set<T>) {
    && (forall x, y | x in S && y in S && less(x, y) :: !less(y, x))
    && (forall x, y, z | x in S && y in S && z in S && less(x, y) :: less(x, z) || less(z, y))
  }

  ghost function Elements<T>(s: seq<T>): set<T> {
    set x | x in s
  }

  /** No element is less than its predecessor; what `is_sorted` tests. */
  ghost predicate Sorted<T>(less: Order<T>, s: seq<T>) {
    forall i | 0 < i < |s| :: !less(s[i], s[i - 1])
  }

  /** The elements of `s` that compare equal to `g`, in their order in `s`. */
  ghost function Class<T>(less: Order<T>, s: seq<T>, g: T): seq<T> {
    if s == [] then []
    else (if Equivalent(less, s[0], g) then [s[0]] else []) + Class(less, s[1..], g)
  }

  /** `t` rearranges `s` without reordering elements that compare equal. */
  ghost predicate StableRearrangement<T>(less: Order<T>, s: seq<T>, t: seq<T>) {
    && multiset(s) == multiset(t)
    && forall g | g in s :: Class(less, s, g) == Class(less, t, g)
  }

  // ---------------------------------------------------------------- the algorithm's values

  /** Length of the first maximal nondecreasing run (`find_end_of_run`). */
  ghost function RunLength<T>(less: Order<T>, s: seq<T>): (n: nat)
    requires s != []
    ensures 1 <= n <= |s|
  {
    if |s| == 1 || less(s[1], s[0]) then 1 else 1 + RunLength(less, s[1..])
  }

  lemma {:induction false} RunIsMaximal<T>(less: Order<T>, s: seq<T>)
    requires s != []
    ensures Sorted(less, s[..RunLength(less, s)])
    ensures RunLength(less, s) < |s| ==> less(s[RunLength(less, s)], s[RunLength(less, s) - 1])
  {
    if |s| > 1 && !less(s[1], s[0]) {
      RunIsMaximal(less, s[1..]);
      var n := RunLength(less, s[1..]);
      SortedCons(less, s[0], s[1..][..n]);
      assert [s[0]] + s[1..][..n] == s[..n + 1];
    }
  }

  /** Number of maximal runs. */
  ghost function Runs<T>(less: Order<T>, s: seq<T>): nat
    decreases |s|
  {
    if s == [] then 0 else 1 + Runs(less, s[RunLength(less, s)..])
  }

  /** Stable merge: the left element goes first unless the right one is strictly less. */
  ghost function Merge<T>(less: Order<T>, a: seq<T>, b: seq<T>): seq<T>
    decreases |a| + |b|
  {
    if a == [] then b
    else if b == [] then a
    else if !less(b[0], a[0]) then [a[0]] + Merge(less, a[1..], b)
    else [b[0]] + Merge(less, a, b[1..])
  }

  /** One pass of `list_sort`: merge runs one and two, three and four, and so on. */
  ghost function Pass<T>(less: Order<T>, s: seq<T>): seq<T>
    decreases |s|
  {
    if s == [] then [] else
    var n := RunLength(less, s);
    if n == |s| then s else
    var m := RunLength(less, s[n..]);
    Merge(less, s[..n], s[n..n + m]) + Pass(less, s[n + m..])
  }

  /** The value of `output_run_cnt` after a pass. */
  ghost function PassCount<T>(less: Order<T>, s: seq<T>): nat
    decreases |s|
  {
    if s == [] then 0 else
    var n := RunLength(less, s);
    if n == |s| then 1 else
    var m := RunLength(less, s[n..]);
    1 + PassCount(less, s[n + m..])
  }

  // ---------------------------------------------------------------- merge

  lemma {:induction false} MergePermutes<T>(less: Order<T>, a: seq<T>, b: seq<T>)
    ensures multiset(Merge(less, a, b)) == multiset(a) + multiset(b)
    ensures |Merge(less, a, b)| == |a| + |b|
    decreases |a| + |b|
  {
    if a == [] || b == [] {
    } else if !less(b[0], a[0]) {
      MergePermutes(less, a[1..], b);
      assert a == [a[0]] + a[1..];
    } else {
      MergePermutes(less, a, b[1..]);
      assert b == [b[0]] + b[1..];
    }
  }

  /** Adjacent comparisons suffice: the head of a sorted sequence is a least element. */
  lemma {:induction false} SortedHead<T>(less: Order<T>, s: seq<T>, S: set<T>, i: nat)
    requires WeakOrder(less, S) && Elements(s) <= S && Sorted(less, s) && i < |s|
    ensures !less(s[i], s[0])
  {
    assert s[0] in Elements(s) && s[i] in Elements(s);
    if i > 0 {
      SortedHead(less, s, S, i - 1);
      assert s[i - 1] in Elements(s);
    }
  }

  lemma SortedTail<T>(less: Order<T>, s: seq<T>)
    requires s != [] && Sorted(less, s)
    ensures Sorted(less, s[1..])
  {
    forall i | 0 < i < |s[1..]| ensures !less(s[1..][i], s[1..][i - 1]) {
      assert !less(s[i + 1], s[i + 1 - 1]);
    }
  }

  lemma SortedCons<T>(less: Order<T>, x: T, s: seq<T>)
    requires Sorted(less, s) && (s != [] ==> !less(s[0], x))
    ensures Sorted(less, [x] + s)
  {
    forall i | 0 < i < |[x] + s| ensures !less(([x] + s)[i], ([x] + s)[i - 1]) {
      if i > 1 { assert !less(s[i - 1], s[i - 1 - 1]); }
    }
  }

  lemma {:induction false} MergeSorted<T>(less: Order<T>, a: seq<T>, b: seq<T>, S: set<T>)
    requires WeakOrder(less, S) && Elements(a) <= S && Elements(b) <= S
    requires Sorted(less, a) && Sorted(less, b)
    ensures Sorted(less, Merge(less, a, b))
    ensures var m := Merge(less, a, b);
            m != [] ==> (a != [] && m[0] == a[0]) || (b != [] && m[0] == b[0])
    decreases |a| + |b|
  {
    if a == [] || b == [] {
    } else {
      assert a[0] in Elements(a) && b[0] in Elements(b);
      if !less(b[0], a[0]) {
        ElementsTail(a);
        SortedTail(less, a);
        if |a| > 1 { assert !less(a[1], a[1 - 1]); }
        MergeSorted(less, a[1..], b, S);
        SortedCons(less, a[0], Merge(less, a[1..], b));
      } else {
        ElementsTail(b);
        SortedTail(less, b);
        if |b| > 1 { assert !less(b[1], b[1 - 1]); }
        MergeSorted(less, a, b[1..], S);
        SortedCons(less, b[0], Merge(less, a, b[1..]));
      }
    }
  }

  lemma ElementsTail<T>(s: seq<T>)
    requires s != []
    ensures Elements(s[1..]) <= Elements(s)
  {}

  // ---------------------------------------------------------------- stability

  lemma {:induction false} ClassAppend<T>(less: Order<T>, s: seq<T>, t: seq<T>, g: T)
    ensures Class(less, s + t, g) == Class(less, s, g) + Class(less, t, g)
  {
    if s == [] {
      assert s + t == t;
    } else {
      assert (s + t)[0] == s[0] && (s + t)[1..] == s[1..] + t;
      ClassAppend(less, s[1..], t, g);
      var head := if Equivalent(less, s[0], g) then [s[0]] else [];
      Associate(head, Class(less, s[1..], g), Class(less, t, g));
    }
  }

  lemma Associate<T>(a: seq<T>, b: seq<T>, c: seq<T>)
    ensures a + (b + c) == a + b + c
  {}

  lemma {:induction false} ClassEmpty<T>(less: Order<T>, s: seq<T>, g: T)
    requires forall x | x in s :: !Equivalent(less, x, g)
    ensures Class(less, s, g) == []
  {
    if s != [] { ClassEmpty(less, s[1..], g); }
  }

  /** An element that overtakes a whole sorted run is equivalent to none of it. */
  lemma OvertakenDiffer<T>(less: Order<T>, y: T, a: seq<T>, S: set<T>, g: T)
    requires WeakOrder(less, S) && Elements(a) <= S && y in S && g in S
    requires Sorted(less, a) && a != [] && less(y, a[0])
    requires Equivalent(less, y, g)
    ensures Class(less, a, g) == []
  {
    forall x | x in a ensures !Equivalent(less, x, g) {
      var i :| 0 <= i < |a| && a[i] == x;
      SortedHead(less, a, S, i);
      assert x in Elements(a) && a[0] in Elements(a);
      assert less(y, x);
    }
    ClassEmpty(less, a, g);
  }

  lemma {:induction false} MergeStable<T>(less: Order<T>, a: seq<T>, b: seq<T>, S: set<T>, g: T)
    requires WeakOrder(less, S) && Elements(a) <= S && Elements(b) <= S && g in S
    requires Sorted(less, a)
    ensures Class(less, Merge(less, a, b), g) == Class(less, a, g) + Class(less, b, g)
    decreases |a| + |b|
  {
    if a == [] || b == [] {
    } else if !less(b[0], a[0]) {
      ElementsTail(a);
      SortedTail(less, a);
      MergeStable(less, a[1..], b, S, g);
      var m := Merge(less, a[1..], b);
      assert ([a[0]] + m)[1..] == m;
    } else {
      ElementsTail(b);
      MergeStable(less, a, b[1..], S, g);
      var m := Merge(less, a, b[1..]);
      assert ([b[0]] + m)[1..] == m;
      if Equivalent(less, b[0], g) {
        assert b[0] in Elements(b);
        OvertakenDiffer(less, b[0], a, S, g);
      }
    }
  }

  // ---------------------------------------------------------------- one pass

  /** A sequence of at most one run is a fixed point of a pass. */
  lemma OneRun<T>(less: Order<T>, s: seq<T>)
    requires s == [] || RunLength(less, s) == |s|
    ensures Pass(less, s) == s
    ensures PassCount(less, s) == Runs(less, s) == if s == [] then 0 else 1
    ensures Sorted(less, s)
  {
    if s != [] {
      assert s[|s|..] == [];
      RunIsMaximal(less, s);
      assert s[..|s|] == s;
    }
  }

  /** Otherwise a pass merges the first two runs and goes on with the rest. */
  lemma TwoRuns<T>(less: Order<T>, a: seq<T>, b: seq<T>, rest: seq<T>)
    requires b + rest != [] && |a| == RunLength(less, a + b + rest)
    requires |b| == RunLength(less, b + rest)
    ensures a != [] && b != []
    ensures Sorted(less, a) && Sorted(less, b)
    ensures Pass(less, a + b + rest) == Merge(less, a, b) + Pass(less, rest)
    ensures PassCount(less, a + b + rest) == 1 + PassCount(less, rest)
    ensures Runs(less, a + b + rest) == 2 + Runs(less, rest)
  {
    var s, n, k := a + b + rest, |a|, |a| + |b|;
    assert s[..n] == a && s[n..k] == b && s[k..] == rest && s[n..] == b + rest;
    assert (b + rest)[..|b|] == b && (b + rest)[|b|..] == rest;
    RunIsMaximal(less, s);
    RunIsMaximal(less, b + rest);
  }

  lemma SplitRuns<T>(less: Order<T>, s: seq<T>) returns (a: seq<T>, b: seq<T>, rest: seq<T>)
    requires s != [] && RunLength(less, s) < |s|
    ensures s == a + b + rest && a != [] && b != []
    ensures Sorted(less, a) && Sorted(less, b)
    ensures Pass(less, s) == Merge(less, a, b) + Pass(less, rest)
    ensures PassCount(less, s) == 1 + PassCount(less, rest)
    ensures Runs(less, s) == 2 + Runs(less, rest)
  {
    var n := RunLength(less, s);
    a := s[..n];
    var m := RunLength(less, s[n..]);
    b, rest := s[n..][..m], s[n..][m..];
    assert s[n..] == b + rest && s == a + b + rest;
    TwoRuns(less, a, b, rest);
  }

  lemma ElementsAppend<T>(a: seq<T>, b: seq<T>, rest: seq<T>, S: set<T>)
    requires Elements(a + b + rest) <= S
    ensures Elements(a) <= S && Elements(b) <= S && Elements(rest) <= S
  {
    forall x | x in a || x in b || x in rest ensures x in S {
      assert x in a + b + rest;
      assert x in Elements(a + b + rest);
    }
  }

  lemma {:induction false} PassPermutes<T>(less: Order<T>, s: seq<T>)
    ensures multiset(Pass(less, s)) == multiset(s)
    decreases |s|
  {
    if s == [] || RunLength(less, s) == |s| {
      OneRun(less, s);
    } else {
      var a, b, rest := SplitRuns(less, s);
      MergePermutes(less, a, b);
      PassPermutes(less, rest);
    }
  }

  lemma {:induction false} PassStable<T>(less: Order<T>, s: seq<T>, S: set<T>, g: T)
    requires WeakOrder(less, S) && Elements(s) <= S && g in S
    ensures Class(less, Pass(less, s), g) == Class(less, s, g)
    decreases |s|
  {
    if s == [] || RunLength(less, s) == |s| {
      OneRun(less, s);
    } else {
      var a, b, rest := SplitRuns(less, s);
      ElementsAppend(a, b, rest, S);
      MergeStable(less, a, b, S, g);
      PassStable(less, rest, S, g);
      ClassAppend(less, a, b, g);
      ClassAppend(less, a + b, rest, g);
      ClassAppend(less, Merge(less, a, b), Pass(less, rest), g);
    }
  }

  lemma PassRearranges<T>(less: Order<T>, s: seq<T>)
    requires WeakOrder(less, Elements(s))
    ensures StableRearrangement(less, s, Pass(less, s))
  {
    PassPermutes(less, s);
    forall g | g in s ensures Class(less, s, g) == Class(less, Pass(less, s), g) {
      PassStable(less, s, Elements(s), g);
    }
  }

  // ---------------------------------------------------------------- termination

  /** The run count of a pass is half the number of runs it started from, rounded up. */
  lemma {:induction false} PassCountHalves<T>(less: Order<T>, s: seq<T>)
    ensures PassCount(less, s) == (Runs(less, s) + 1) / 2
    decreases |s|
  {
    if s == [] || RunLength(less, s) == |s| {
      OneRun(less, s);
    } else {
      var a, b, rest := SplitRuns(less, s);
      PassCountHalves(less, rest);
    }
  }

  /** The first run of `a + b`, for a sorted `a`, ends at `a` or swallows a whole run of `b`. */
  lemma {:induction false} RunLengthAppend<T>(less: Order<T>, a: seq<T>, b: seq<T>)
    requires a != [] && Sorted(less, a)
    ensures var n := RunLength(less, a + b);
            n == |a| || (b != [] && n == |a| + RunLength(less, b))
    decreases |a|
  {
    if |a| == 1 {
      if b != [] { assert (a + b)[1..] == b; }
    } else {
      assert !less(a[1], a[1 - 1]);
      SortedTail(less, a);
      RunLengthAppend(less, a[1..], b);
      assert (a + b)[1..] == a[1..] + b;
    }
  }

  lemma RunsAppend<T>(less: Order<T>, a: seq<T>, b: seq<T>)
    requires a != [] && Sorted(less, a)
    ensures Runs(less, a + b) <= 1 + Runs(less, b)
  {
    RunLengthAppend(less, a, b);
    var n := RunLength(less, a + b);
    if n == |a| {
      assert (a + b)[n..] == b;
    } else {
      assert (a + b)[n..] == b[RunLength(less, b)..];
    }
  }

  /** A pass leaves at most as many runs as it counted. */
  lemma {:induction false} PassRuns<T>(less: Order<T>, s: seq<T>, S: set<T>)
    requires WeakOrder(less, S) && Elements(s) <= S
    ensures Runs(less, Pass(less, s)) <= PassCount(less, s)
    decreases |s|
  {
    if s == [] || RunLength(less, s) == |s| {
      OneRun(less, s);
    } else {
      var a, b, rest := SplitRuns(less, s);
      ElementsAppend(a, b, rest, S);
      MergeSorted(less, a, b, S);
      MergePermutes(less, a, b);
      PassRuns(less, rest, S);
      RunsAppend(less, Merge(less, a, b), Pass(less, rest));
    }
  }

  /** At most one run means sorted, so the loop may stop when a pass counts at most one. */
  lemma OneRunSorted<T>(less: Order<T>, s: seq<T>)
    requires Runs(less, s) <= 1
    ensures Sorted(less, s)
  {
    if s != [] {
      var n := RunLength(less, s);
      RunIsMaximal(less, s);
      assert s[n..] == [];
      assert s[..n] == s;
    }
  }

  /** The whole argument for one pass: it rearranges stably; it either finishes the sort or
      strictly reduces the number of runs, to at most half rounded up. */
  lemma PassProgress<T>(less: Order<T>, s: seq<T>)
    requires WeakOrder(less, Elements(s))
    ensures StableRearrangement(less, s, Pass(less, s))
    ensures PassCount(less, s) <= 1 ==> Sorted(less, Pass(less, s))
    ensures Runs(less, Pass(less, s)) <= (Runs(less, s) + 1) / 2
    ensures PassCount(less, s) > 1 ==> Runs(less, Pass(less, s)) < Runs(less, s)
  {
    PassRearranges(less, s);
    PassCountHalves(less, s);
    PassRuns(less, s, Elements(s));
    if PassCount(less, s) <= 1 { OneRunSorted(less, Pass(less, s)); }
  }

  lemma StableTrans<T>(less: Order<T>, s: seq<T>, t: seq<T>, u: seq<T>)
    requires StableRearrangement(less, s, t) && StableRearrangement(less, t, u)
    ensures StableRearrangement(less, s, u)
  {
    forall g | g in s ensures Class(less, s, g) == Class(less, u, g) {
      assert g in multiset(s);
    }
  }

  lemma RearrangementElements<T>(s: seq<T>, t: seq<T>)
    requires multiset(s) == multiset(t)
    ensures Elements(s) == Elements(t) && |s| == |t|
  {
    forall x ensures x in s <==> x in t {
      assert x in s <==> x in multiset(s);
    }
    assert |multiset(s)| == |s| && |multiset(t)| == |t|;
  }
}
