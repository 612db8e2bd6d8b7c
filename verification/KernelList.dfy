/** Intrusive doubly linked lists (src/lib/kernel/list.c) on the heap. */
module KernelList {
  import opened Common
  import opened MergeSort

  /** `struct list_elem`. */
  class ListElem {
    var prev: ListElem?
    var next: ListElem?

    constructor ()
      ensures prev == null && next == null
    {
      prev, next := null, null;
    }
  }

  ghost predicate Apart(c: seq<ListElem>, s: seq<ListElem>) {
    forall i, j | 0 <= i < |c| && 0 <= j < |s| :: c[i] != s[j]
  }

  /** `s` is the chain of a whole list, from its head header to its tail header. */
  ghost predicate Linked(s: seq<ListElem>)
    reads s
  {
    && |s| >= 2
    && s[0].prev == null && s[|s| - 1].next == null
    && Chain(s)
  }

  /** Consecutive elements of `s` point at each other. */
  ghost predicate Chain(s: seq<ListElem>)
    reads s
  {
    && (forall i {:trigger s[i].next} | 0 <= i < |s| - 1 :: s[i].next == s[i + 1])
    && (forall i {:trigger s[i].prev} | 1 <= i < |s| :: s[i].prev == s[i - 1])
  }

  /** A chain between two null links never meets the same element twice. */
  lemma {:induction false} LinkedDistinct(s: seq<ListElem>)
    requires Linked(s)
    ensures NoDup(s)
  {
    forall i, j | 0 <= i < j < |s| ensures s[i] != s[j] {
      LinkedDiffer(s, i, j);
    }
  }

  lemma {:induction false} LinkedDiffer(s: seq<ListElem>, i: nat, j: nat)
    requires Linked(s) && i < j < |s|
    ensures s[i] != s[j]
  {
    assert s[j].prev == s[j - 1];
    if i > 0 {
      assert s[i].prev == s[i - 1];
      LinkedDiffer(s, i - 1, j - 1);
    }
  }

  lemma LinkedSame(s: seq<ListElem>, i: nat, j: nat)
    requires Linked(s) && i < |s| && j < |s| && s[i] == s[j]
    ensures i == j
  {
    if i < j { LinkedDiffer(s, i, j); }
    if j < i { LinkedDiffer(s, j, i); }
  }

  method ListInsert(before: ListElem, elem: ListElem, ghost s: seq<ListElem>, ghost k: nat)
    requires Linked(s) && 1 <= k < |s| && before == s[k] && elem !in s
    modifies s, elem
    ensures Linked(s[..k] + [elem] + s[k..])
  {
    LinkedDistinct(s);
    elem.prev := before.prev;
    elem.next := before;
    before.prev.next := elem;
    before.prev := elem;
  }

  method ListRemove(elem: ListElem, ghost s: seq<ListElem>, ghost k: nat) returns (after: ListElem)
    requires Linked(s) && 1 <= k < |s| - 1 && elem == s[k]
    modifies s
    ensures after == s[k + 1]
    ensures Linked(s[..k] + s[k + 1..])
  {
    LinkedDistinct(s);
    elem.prev.next := elem.next;
    elem.next.prev := elem.prev;
    after := elem.next;
  }

  /** First half of `list_splice`: cut the elements from `m` up to `e` out of their list. */
  method CutOut(first: ListElem, last: ListElem, ghost s: seq<ListElem>, ghost m: nat, ghost e: nat)
    requires Linked(s) && 1 <= m < e < |s|
    requires first == s[m] && last == s[e - 1]
    modifies s[m - 1], s[e]
    ensures Linked(s[..m] + s[e..]) && Chain(s[m..e])
  {
    LinkedDistinct(s);
    first.prev.next := last.next;
    last.next.prev := first.prev;
  }

  /** Second half: put the chain `c` before position `k` of the list `s`. */
  method PutIn(before: ListElem, first: ListElem, last: ListElem,
               ghost s: seq<ListElem>, ghost k: nat, ghost c: seq<ListElem>)
    requires Linked(s) && 1 <= k < |s| && before == s[k]
    requires Chain(c) && NoDup(c) && c != [] && first == c[0] && last == c[|c| - 1]
    requires Apart(c, s)
    modifies first, last, s[k - 1], s[k]
    ensures Linked(s[..k] + c + s[k..])
  {
    LinkedDistinct(s);
    first.prev := before.prev;
    last.next := before;
    before.prev.next := first;
    before.prev := last;
  }

  lemma SegmentApart(s: seq<ListElem>, m: nat, e: nat, u: seq<ListElem>)
    requires NoDup(s) && m <= e <= |s|
    requires u == s[..m] + s[e..] || Apart(u, s)
    ensures NoDup(s[m..e]) && Apart(s[m..e], u)
  {}

  /** Moves the elements from `first` up to (not including) `last` in front of `before`.
      `s` is their list; `u` is the list `before` is in once they are gone: either what is
      left of `s` or a list that shares no element with it. */
  method ListSplice(before: ListElem, first: ListElem, last: ListElem,
                    ghost s: seq<ListElem>, ghost m: nat, ghost e: nat,
                    ghost u: seq<ListElem>, ghost k: nat)
    requires Linked(s) && 1 <= m <= e < |s| && first == s[m] && last == s[e]
    requires u == s[..m] + s[e..] || (Linked(u) && Apart(u, s))
    requires 1 <= k < |u| && before == u[k]
    modifies Elements(s) + Elements(u)
    ensures Linked(u[..k] + s[m..e] + u[k..])
    ensures u != s[..m] + s[e..] ==> Linked(s[..m] + s[e..])
  {
    LinkedDistinct(s);
    if first == last {
      assert m == e;
      assert s[..m] + s[m..] == s;
      assert u[..k] + [] + u[k..] == u;
      return;
    }
    SegmentApart(s, m, e, u);
    var end := last.prev;
    CutOut(first, end, s, m, e);
    PutIn(before, first, end, u, k, s[m..e]);
  }

  /** The end of the run that starts at position `i`, not past position `hi`. */
  method FindEndOfRun(start: ListElem, end: ListElem, less: Order<ListElem>,
                      ghost s: seq<ListElem>, ghost i: nat, ghost hi: nat) returns (a: ListElem)
    requires Linked(s) && i < hi < |s| && start == s[i] && end == s[hi]
    ensures a == s[i + RunLength(less, s[i..hi])]
  {
    a := start.next;
    ghost var k := i + 1;
    RunLengthStep(less, s, i, hi);
    while a != end && !less(a, a.prev)
      invariant i < k <= hi && a == s[k]
      invariant i + RunLength(less, s[i..hi]) == k - 1 + RunLength(less, s[k - 1..hi])
      decreases hi - k
    {
      RunLengthStep(less, s, k - 1, hi);
      a := a.next;
      k := k + 1;
    }
    if k < hi { LinkedDiffer(s, k, hi); }
    RunLengthStep(less, s, k - 1, hi);
  }

  lemma RunLengthStep(less: Order<ListElem>, s: seq<ListElem>, i: nat, hi: nat)
    requires i < hi <= |s|
    ensures i + 1 == hi || less(s[i + 1], s[i]) ==> RunLength(less, s[i..hi]) == 1
    ensures i + 1 < hi && !less(s[i + 1], s[i]) ==>
              RunLength(less, s[i..hi]) == 1 + RunLength(less, s[i + 1..hi])
  {
    assert s[i..hi][1..] == s[i + 1..hi];
  }

  /** `s` with its segments from `lo` and from `mid` (up to `hi`) merged. */
  ghost function MergedAt(less: Order<ListElem>, s: seq<ListElem>, lo: nat, mid: nat, hi: nat)
    : seq<ListElem>
    requires lo <= mid <= hi <= |s|
  {
    s[..lo] + Merge(less, s[lo..mid], s[mid..hi]) + s[hi..]
  }

  /** The list that merging leads to when the cursors stand at `i` and `j`. */
  ghost function Outcome(less: Order<ListElem>, t: seq<ListElem>, lo: nat, i: nat, j: nat, hi: nat)
    : seq<ListElem>
    requires lo <= i <= j <= hi <= |t|
  {
    t[..i] + Merge(less, t[i..j], t[j..hi]) + t[hi..]
  }

  /** The element at `j` moved in front of position `i`. */
  ghost function Advance(t: seq<ListElem>, i: nat, j: nat): (r: seq<ListElem>)
    requires i <= j < |t|
    ensures |r| == |t|
  {
    t[..i] + [t[j]] + t[i..j] + t[j + 1..]
  }

  lemma KeepLeft(less: Order<ListElem>, t: seq<ListElem>, lo: nat, i: nat, j: nat, hi: nat)
    requires lo <= i < j < hi <= |t| && !less(t[j], t[i])
    ensures Outcome(less, t, lo, i, j, hi) == Outcome(less, t, lo, i + 1, j, hi)
  {
    assert t[i..j][1..] == t[i + 1..j];
    assert t[..i + 1] == t[..i] + [t[i]];
  }

  lemma TakeRight(less: Order<ListElem>, t: seq<ListElem>, lo: nat, i: nat, j: nat, hi: nat)
    requires lo <= i < j < hi < |t| && less(t[j], t[i])
    ensures Outcome(less, t, lo, i, j, hi) == Outcome(less, Advance(t, i, j), lo, i + 1, j + 1, hi)
  {
    var r := Advance(t, i, j);
    assert t[j..hi][1..] == t[j + 1..hi];
    assert r[..i + 1] == t[..i] + [t[j]];
    assert r[i + 1..j + 1] == t[i..j];
    assert r[j + 1..hi] == t[j + 1..hi];
    assert r[hi..] == t[hi..];
  }

  lemma AdvancePermutes(t: seq<ListElem>, i: nat, j: nat)
    requires i < j < |t|
    ensures multiset(Advance(t, i, j)) == multiset(t)
    ensures Elements(Advance(t, i, j)) == Elements(t)
  {
    assert t == t[..i] + t[i..j] + [t[j]] + t[j + 1..];
    RearrangementElements(t, Advance(t, i, j));
  }

  lemma AdvanceAt(t: seq<ListElem>, i: nat, j: nat, hi: nat)
    requires i < j < hi < |t|
    ensures Advance(t, i, j)[i + 1] == t[i]
    ensures Advance(t, i, j)[j + 1] == t[j + 1]
    ensures Advance(t, i, j)[hi] == t[hi]
  {}

  lemma OutcomeDone(less: Order<ListElem>, t: seq<ListElem>, lo: nat, i: nat, j: nat, hi: nat)
    requires lo <= i <= j <= hi <= |t| && (i == j || j == hi)
    ensures Outcome(less, t, lo, i, j, hi) == t
  {
    assert Merge(less, t[i..j], t[j..hi]) == t[i..hi];
  }

  /** Merges two adjacent nonempty sorted ranges in place by moving nodes. */
  method InplaceMerge(a0: ListElem, a1b0: ListElem, b1: ListElem, less: Order<ListElem>,
                      ghost s: seq<ListElem>, ghost lo: nat, ghost mid: nat, ghost hi: nat)
    returns (ghost t: seq<ListElem>)
    requires Linked(s) && 1 <= lo < mid < hi < |s|
    requires a0 == s[lo] && a1b0 == s[mid] && b1 == s[hi]
    modifies Elements(s)
    ensures Linked(t) && multiset(t) == multiset(s) && Elements(t) == Elements(s)
    ensures t == MergedAt(less, s, lo, mid, hi)
  {
    var a, b := a0, a1b0;
    t := s;
    ghost var i, j := lo, mid;
    while a != b && b != b1
      invariant lo <= i <= j <= hi < |t|
      invariant Linked(t) && multiset(t) == multiset(s) && Elements(t) == Elements(s)
      invariant a == t[i] && b == t[j] && b1 == t[hi]
      invariant Outcome(less, t, lo, i, j, hi) == Outcome(less, s, lo, lo, mid, hi)
      decreases hi - i + hi - j
    {
      if !less(b, a) {
        KeepLeft(less, t, lo, i, j, hi);
        a := a.next;
        i := i + 1;
      } else {
        b, t := MoveForward(a, b, less, t, lo, i, j, hi);
        i, j := i + 1, j + 1;
      }
    }
    if i < j { LinkedDiffer(t, i, j); }
    if j < hi { LinkedDiffer(t, j, hi); }
    OutcomeDone(less, t, lo, i, j, hi);
  }

  /** The else branch of `inplace_merge`: step the second cursor and splice the node it
      leaves behind in front of the first. */
  method MoveForward(a: ListElem, b: ListElem, less: Order<ListElem>,
                     ghost t: seq<ListElem>, ghost lo: nat, ghost i: nat, ghost j: nat, ghost hi: nat)
    returns (b': ListElem, ghost r: seq<ListElem>)
    requires Linked(t) && 1 <= lo <= i < j < hi < |t| && a == t[i] && b == t[j]
    requires less(b, a)
    modifies Elements(t)
    ensures |r| == |t| && Linked(r) && multiset(r) == multiset(t) && Elements(r) == Elements(t)
    ensures a == r[i + 1] && b' == r[j + 1] && r[hi] == t[hi]
    ensures Outcome(less, r, lo, i + 1, j + 1, hi) == Outcome(less, t, lo, i, j, hi)
  {
    TakeRight(less, t, lo, i, j, hi);
    AdvancePermutes(t, i, j);
    AdvanceAt(t, i, j, hi);
    b' := b.next;
    SpliceOne(a, b', t, i, j);
    r := Advance(t, i, j);
  }

  /** The call `list_splice (a0, list_prev (a1b0), a1b0)`. */
  method SpliceOne(a: ListElem, b: ListElem, ghost t: seq<ListElem>, ghost i: nat, ghost j: nat)
    requires Linked(t) && 1 <= i < j < |t| - 1 && a == t[i] && b == t[j + 1]
    modifies Elements(t)
    ensures Linked(Advance(t, i, j))
  {
    ghost var u := t[..j] + t[j + 1..];
    AdvanceIsSplice(t, i, j);
    ListSplice(a, b.prev, b, t, j, j + 1, u, i);
  }

  lemma AdvanceIsSplice(t: seq<ListElem>, i: nat, j: nat)
    requires i <= j < |t|
    ensures var u := t[..j] + t[j + 1..];
            u[..i] + t[j..j + 1] + u[i..] == Advance(t, i, j) && Elements(u) <= Elements(t)
  {}

  // ---------------------------------------------------------------- list_sort

  /** The elements from position `i` up to the tail header. */
  ghost function Rest(s: seq<ListElem>, i: nat): seq<ListElem>
    requires i < |s|
  {
    s[i..|s| - 1]
  }

  /** The pass result that the cursor at `i` leads to. */
  ghost function PassGoal(less: Order<ListElem>, s: seq<ListElem>, i: nat): seq<ListElem>
    requires 1 <= i < |s|
  {
    s[1..i] + Pass(less, Rest(s, i))
  }

  /** The first two remaining runs become one output run.  Both were sorted, as the
      assertions at the head of `inplace_merge` demand. */
  lemma PassStep(less: Order<ListElem>, s: seq<ListElem>, i: nat, mid: nat, end: nat)
    requires 1 <= i < |s| - 1
    requires mid == i + RunLength(less, Rest(s, i)) < |s| - 1
    requires end == mid + RunLength(less, Rest(s, mid))
    ensures Sorted(less, s[i..mid]) && Sorted(less, s[mid..end])
    ensures |Merge(less, s[i..mid], s[mid..end])| == end - i
    ensures Pass(less, Rest(s, i)) == Merge(less, s[i..mid], s[mid..end]) + Pass(less, Rest(s, end))
    ensures PassCount(less, Rest(s, i)) == 1 + PassCount(less, Rest(s, end))
  {
    var a, b, rest := s[i..mid], s[mid..end], Rest(s, end);
    RestPieces(s, i, mid, end);
    TwoRuns(less, a, b, rest);
    MergePermutes(less, a, b);
  }

  lemma RestPieces(s: seq<ListElem>, i: nat, mid: nat, end: nat)
    requires i <= mid <= end < |s|
    ensures Rest(s, i) == s[i..mid] + s[mid..end] + Rest(s, end)
    ensures Rest(s, mid) == s[mid..end] + Rest(s, end)
  {}

  lemma PassGoalStep(less: Order<ListElem>, s: seq<ListElem>, i: nat, mid: nat, end: nat)
    requires 1 <= i < |s| - 1
    requires mid == i + RunLength(less, Rest(s, i)) < |s| - 1
    requires end == mid + RunLength(less, Rest(s, mid))
    ensures var t := MergedAt(less, s, i, mid, end);
            && |t| == |s| && t[0] == s[0] && t[end] == s[end] && t[|t| - 1] == s[|s| - 1]
            && PassGoal(less, t, end) == PassGoal(less, s, i)
            && PassCount(less, Rest(s, i)) == 1 + PassCount(less, Rest(t, end))
  {
    PassStep(less, s, i, mid, end);
    var merged := Merge(less, s[i..mid], s[mid..end]);
    Replaced(s, i, end, merged);
    ConcatAssoc(s[1..i], merged, Pass(less, Rest(s, end)));
  }

  lemma ConcatAssoc(a: seq<ListElem>, b: seq<ListElem>, c: seq<ListElem>)
    ensures a + b + c == a + (b + c)
  {}

  lemma Replaced(s: seq<ListElem>, i: nat, end: nat, merged: seq<ListElem>)
    requires 1 <= i < end < |s| && |merged| == end - i
    ensures var t := s[..i] + merged + s[end..];
            && |t| == |s| && t[0] == s[0] && t[end] == s[end] && t[|t| - 1] == s[|s| - 1]
            && Rest(t, end) == Rest(s, end)
            && t[1..end] == s[1..i] + merged
  {}

  /** A single remaining run is output as it stands. */
  lemma LastRun(less: Order<ListElem>, s: seq<ListElem>, i: nat)
    requires 1 <= i < |s| - 1 && RunLength(less, Rest(s, i)) == |Rest(s, i)|
    ensures PassGoal(less, s, i) == PassGoal(less, s, |s| - 1)
    ensures PassCount(less, Rest(s, i)) == 1 + PassCount(less, Rest(s, |s| - 1))
  {
    OneRun(less, Rest(s, i));
    assert Rest(s, |s| - 1) == [];
    assert s[1..i] + Rest(s, i) == s[1..|s| - 1] + [];
  }

  lemma GoalEnds(less: Order<ListElem>, s: seq<ListElem>)
    requires |s| >= 2
    ensures PassGoal(less, s, 1) == Pass(less, Rest(s, 1))
    ensures PassGoal(less, s, |s| - 1) == Rest(s, 1)
    ensures PassCount(less, Rest(s, |s| - 1)) == 0
  {
    assert s[1..1] == [];
    assert Rest(s, |s| - 1) == [];
  }

  /** The body of the inner loop of `list_sort`; `more` is false when it breaks out. */
  method MergeNextRuns(a0: ListElem, tail: ListElem, less: Order<ListElem>,
                       ghost s: seq<ListElem>, ghost i: nat)
    returns (more: bool, b1: ListElem, ghost t: seq<ListElem>, ghost end: nat)
    requires Linked(s) && 1 <= i < |s| - 1 && a0 == s[i] && tail == s[|s| - 1]
    modifies Elements(s)
    ensures Linked(t) && Elements(t) == Elements(s)
    ensures t[0] == s[0] && t[|t| - 1] == s[|s| - 1] && |t| == |s|
    ensures i < end < |t| && b1 == t[end] && (!more ==> end == |t| - 1)
    ensures PassGoal(less, t, end) == PassGoal(less, s, i)
    ensures PassCount(less, Rest(s, i)) == 1 + PassCount(less, Rest(t, end))
  {
    var a1b0 := FindEndOfRun(a0, tail, less, s, i, |s| - 1);
    ghost var mid := i + RunLength(less, Rest(s, i));
    if a1b0 == tail {
      LinkedSame(s, mid, |s| - 1);
      LastRun(less, s, i);
      return false, tail, s, |s| - 1;
    }
    b1 := FindEndOfRun(a1b0, tail, less, s, mid, |s| - 1);
    end := mid + RunLength(less, Rest(s, mid));
    PassGoalStep(less, s, i, mid, end);
    t := InplaceMerge(a0, a1b0, b1, less, s, i, mid, end);
    more := true;
  }

  /** The inner loop of `list_sort`. */
  method MergeRuns(head: ListElem, tail: ListElem, less: Order<ListElem>, ghost s: seq<ListElem>)
    returns (outputRuns: nat, ghost t: seq<ListElem>)
    requires Linked(s) && s[0] == head && s[|s| - 1] == tail
    modifies Elements(s)
    ensures Linked(t) && Elements(t) == Elements(s) && t[0] == head && t[|t| - 1] == tail
    ensures Rest(t, 1) == Pass(less, Rest(s, 1)) && outputRuns == PassCount(less, Rest(s, 1))
  {
    ghost var i := 1;
    t := s;
    outputRuns := 0;
    var a0 := head.next;
    var more := true;
    while more && a0 != tail
      invariant Linked(t) && Elements(t) == Elements(s) && t[0] == head && t[|t| - 1] == tail
      invariant 1 <= i < |t| && a0 == t[i] && (!more ==> i == |t| - 1)
      invariant PassGoal(less, t, i) == PassGoal(less, s, 1)
      invariant PassCount(less, Rest(s, 1)) == outputRuns + PassCount(less, Rest(t, i))
      decreases |t| - i
    {
      outputRuns := outputRuns + 1;
      more, a0, t, i := MergeNextRuns(a0, tail, less, t, i);
    }
    LinkedSame(t, i, |t| - 1);
    GoalEnds(less, s);
    GoalEnds(less, t);
  }

  class List {
    const head: ListElem
    const tail: ListElem
    ghost var nodes: seq<ListElem>

    ghost predicate Valid()
      reads this, nodes
    {
      Linked(nodes) && nodes[0] == head && nodes[|nodes| - 1] == tail
    }

    /** The elements of the list, without the two headers. */
    ghost function Interior(): seq<ListElem>
      reads this
      requires |nodes| >= 2
    {
      nodes[1..|nodes| - 1]
    }

    constructor ()
      ensures Valid() && Interior() == []
    {
      head := new ListElem();
      tail := new ListElem();
      new;
      head.next := tail;
      tail.prev := head;
      nodes := [head, tail];
    }

    /** One round of the outer loop of `list_sort`. */
    method SortPass(less: Order<ListElem>) returns (outputRuns: nat)
      requires Valid()
      modifies this, Elements(nodes)
      ensures Valid() && Elements(nodes) == old(Elements(nodes))
      ensures Interior() == Pass(less, old(Interior()))
      ensures outputRuns == PassCount(less, old(Interior()))
    {
      ghost var t;
      outputRuns, t := MergeRuns(head, tail, less, nodes);
      nodes := t;
    }

    /** Natural merge sort in place: the nodes end up sorted, equal ones in their old order. */
    method Sort(less: Order<ListElem>)
      requires Valid() && WeakOrder(less, Elements(Interior()))
      modifies this, Elements(nodes)
      ensures Valid()
      ensures Sorted(less, Interior())
      ensures StableRearrangement(less, old(Interior()), Interior())
    {
      ghost var s := Interior();
      while true
        invariant Valid() && Elements(nodes) == old(Elements(nodes))
        invariant WeakOrder(less, Elements(Interior()))
        invariant StableRearrangement(less, s, Interior())
        decreases Runs(less, Interior())
      {
        ghost var t := Interior();
        PassProgress(less, t);
        StableTrans(less, s, t, Pass(less, t));
        RearrangementElements(t, Pass(less, t));
        var outputRuns := SortPass(less);
        if outputRuns <= 1 { break; }
      }
    }
  }
}
