/** The clock algorithm of the frame table (src/vm/frame.c): choosing a frame to evict. */
module ClockEviction {
  import opened Nonlinear

  /** `struct vm_frame`: `accessed` has the accessed bit of every page that shares the frame. */
  datatype Frame = Frame(addr: nat, pinned: bool, accessed: seq<bool>)

  /** `e_next`: not set, the end of the list, or the list element of a frame. */
  datatype Hand = Null | End | On(addr: nat)

  /** No two frames are at the same address. */
  ghost predicate Unique(fs: seq<Frame>) {
    forall i, j | 0 <= i < j < |fs| :: fs[i].addr != fs[j].addr
  }

  ghost predicate Listed(fs: seq<Frame>, addr: nat) {
    exists i :: 0 <= i < |fs| && fs[i].addr == addr
  }

  /** The position of a frame in the list, or the length if it is not there. */
  function IndexOf(fs: seq<Frame>, addr: nat): (i: nat)
    ensures i <= |fs|
    ensures i < |fs| ==> fs[i].addr == addr
    ensures forall j | 0 <= j < i :: fs[j].addr != addr
  {
    if fs == [] || fs[0].addr == addr then 0 else 1 + IndexOf(fs[1..], addr)
  }

  lemma IndexIs(fs: seq<Frame>, i: nat)
    requires Unique(fs) && i < |fs|
    ensures IndexOf(fs, fs[i].addr) == i
  {}

  /** Where the hand is; without a frame under it, it is about to start over. */
  function Position(fs: seq<Frame>, hand: Hand): (p: nat)
    ensures p <= |fs|
  {
    if hand.On? then IndexOf(fs, hand.addr) else |fs|
  }

  /** The hand is not on a frame that has left the list. */
  ghost predicate HandOk(fs: seq<Frame>, hand: Hand) {
    hand.On? ==> Listed(fs, hand.addr)
  }

  // ---------------------------------------------------------------- accessed bits

  function Ones(bits: seq<bool>): (n: nat)
    ensures n == 0 <==> forall i | 0 <= i < |bits| :: !bits[i]
  {
    if bits == [] then 0 else (if bits[0] then 1 else 0) + Ones(bits[1..])
  }

  lemma {:induction false} OneLess(bits: seq<bool>, i: nat)
    requires i < |bits| && bits[i]
    ensures Ones(bits[i := false]) == Ones(bits) - 1
  {
    if i > 0 {
      assert bits[i := false][1..] == bits[1..][i - 1 := false];
      OneLess(bits[1..], i - 1);
    } else {
      assert bits[0 := false][1..] == bits[1..];
    }
  }

  /** Steps of the hand from position `p` to the frame at `k`, round the end of the list. */
  function Distance(n: nat, p: nat, k: nat): nat
    requires k < n && p <= n
  {
    if p <= k then k - p else n - p + 1 + k
  }

  /** How long a frame will last: a round of the hand for every accessed bit, and the way to it. */
  function Rank(fs: seq<Frame>, p: nat, k: nat): (r: nat)
    requires k < |fs| && p <= |fs|
  {
    MulLe(0, Ones(fs[k].accessed), |fs| + 1);
    Ones(fs[k].accessed) * (|fs| + 1) + Distance(|fs|, p, k)
  }

  /** What a lower rank means: fewer accessed bits or, with as many, the one that the hand at `p` meets
      first on its way to the end of the list and round from its start. */
  lemma RankOrder(fs: seq<Frame>, p: nat, a: nat, b: nat)
    requires a < |fs| && b < |fs| && p <= |fs|
    ensures var x, y := Ones(fs[a].accessed), Ones(fs[b].accessed);
            Rank(fs, p, a) <= Rank(fs, p, b) <==> x < y || (x == y && (p <= a <= b || (a <= b && b < p) || b < p <= a))
  {
    LexOrder(Ones(fs[a].accessed), Distance(|fs|, p, a), Ones(fs[b].accessed), Distance(|fs|, p, b), |fs| + 1);
  }

  lemma LexOrder(x: nat, dx: nat, y: nat, dy: nat, n: nat)
    requires dx < n && dy < n
    ensures x * n + dx <= y * n + dy <==> x < y || (x == y && dx <= dy)
  {
    Distribute(x, 1, n);
    Distribute(y, 1, n);
    if x < y { MulLe(x + 1, y, n); } else if y < x { MulLe(y + 1, x, n); }
  }

  /** All frames that are not pinned have come closer to eviction by the same amount. */
  ghost predicate Closer(fs: seq<Frame>, p: nat, fs': seq<Frame>, p': nat, c: nat)
    requires p <= |fs| && p' <= |fs'|
  {
    && |fs'| == |fs|
    && forall k: nat {:trigger Rank(fs', p', k)} | k < |fs| && !fs[k].pinned ::
         !fs'[k].pinned && Rank(fs', p', k) + c == Rank(fs, p, k)
  }

  /** When the hand is on a frame without accessed bits, that frame had the least rank. */
  lemma LeastRank(fs: seq<Frame>, p: nat, fs': seq<Frame>, i: nat, c: nat)
    requires p <= |fs| && i < |fs'| == |fs| && !fs[i].pinned && Closer(fs, p, fs', i, c)
    requires Ones(fs'[i].accessed) == 0
    ensures forall k: nat | k < |fs| && !fs[k].pinned :: Rank(fs, p, i) <= Rank(fs, p, k)
  {
    assert Rank(fs', i, i) == 0;
    forall k: nat | k < |fs| && !fs[k].pinned ensures Rank(fs, p, i) <= Rank(fs, p, k) {
      assert Rank(fs', i, k) + c == Rank(fs, p, k);
    }
  }

  /** The hand starts over. */
  lemma Wraps(fs: seq<Frame>, p: nat, fs': seq<Frame>, c: nat)
    requires p <= |fs| && Closer(fs, p, fs', |fs'|, c)
    ensures Closer(fs, p, fs', 0, c + 1)
  {
    forall k: nat | k < |fs| && !fs[k].pinned ensures !fs'[k].pinned && Rank(fs', 0, k) + c + 1 == Rank(fs, p, k) {
      assert Rank(fs', |fs'|, k) + c == Rank(fs, p, k);
    }
  }

  /** The hand passes a pinned frame. */
  lemma Passes(fs: seq<Frame>, p: nat, fs': seq<Frame>, i: nat, c: nat)
    requires p <= |fs| && i < |fs'| && Closer(fs, p, fs', i, c) && fs'[i].pinned
    ensures Closer(fs, p, fs', i + 1, c + 1)
  {
    forall k: nat | k < |fs| && !fs[k].pinned ensures !fs'[k].pinned && Rank(fs', i + 1, k) + c + 1 == Rank(fs, p, k) {
      assert Rank(fs', i, k) + c == Rank(fs, p, k);
    }
  }

  /** The hand passes a frame of which it has cleared one bit. */
  lemma Flips(fs: seq<Frame>, p: nat, fs': seq<Frame>, i: nat, g: Frame, c: nat)
    requires p <= |fs| && i < |fs'| && Closer(fs, p, fs', i, c)
    requires !g.pinned && Ones(g.accessed) == Ones(fs'[i].accessed) - 1
    ensures Closer(fs, p, fs'[i := g], i + 1, c + 1)
  {
    var n := |fs'|;
    Distribute(Ones(fs'[i].accessed), 1, n + 1);
    forall k: nat | k < |fs| && !fs[k].pinned
      ensures !fs'[i := g][k].pinned && Rank(fs'[i := g], i + 1, k) + c + 1 == Rank(fs, p, k)
    {
      assert Rank(fs', i, k) + c == Rank(fs, p, k);
    }
  }

  /** Frames differ at most in accessed bits that were cleared, and only if they are not pinned. */
  ghost predicate Aged(fs: seq<Frame>, fs': seq<Frame>) {
    && |fs'| == |fs|
    && forall i | 0 <= i < |fs| :: AgedFrame(fs[i], fs'[i])
  }

  ghost predicate AgedFrame(f: Frame, g: Frame) {
    && g.addr == f.addr && g.pinned == f.pinned && |g.accessed| == |f.accessed|
    && (f.pinned ==> g == f)
    && forall j | 0 <= j < |f.accessed| :: g.accessed[j] ==> f.accessed[j]
  }

  class FrameTable {
    var frames: seq<Frame>
    var hand: Hand

    ghost predicate Valid()
      reads this
    {
      Unique(frames) && HandOk(frames, hand)
    }

    /** `vm_frame_init` */
    constructor ()
      ensures Valid() && frames == []
    {
      frames := [];
      hand := Null;
    }

    /** `eviction_get_next` */
    method GetNext() returns (i: nat)
      requires Valid() && frames != []
      modifies `hand
      ensures Valid() && i < |frames| && hand == On(frames[i].addr)
      ensures i == (if old(Position(frames, hand)) == |frames| then 0 else old(Position(frames, hand)))
    {
      if hand == Null || hand == End {
        hand := On(frames[0].addr);
      }
      i := IndexOf(frames, hand.addr);
    }

    /** `eviction_move_next` */
    method MoveNext()
      requires Valid() && frames != []
      modifies `hand
      ensures Valid()
      ensures var p := old(Position(frames, hand)); Position(frames, hand) == if p == |frames| then 0 else p + 1
    {
      if hand == Null || hand == End {
        hand := On(frames[0].addr);
      } else {
        var i := IndexOf(frames, hand.addr);
        if i + 1 < |frames| {
          IndexIs(frames, i + 1);
          hand := On(frames[i + 1].addr);
        } else {
          hand := End;
        }
      }
    }

    /** `eviction_scan_and_flip`: whether no page of the frame was accessed; if one was, the first
        such bit is cleared. */
    method ScanAndFlip(i: nat) returns (idle: bool)
      requires Valid() && i < |frames| && !frames[i].pinned
      modifies `frames
      ensures Valid() && Aged(old(frames), frames)
      ensures idle == (Ones(old(frames)[i].accessed) == 0)
      ensures idle ==> frames == old(frames)
      ensures !idle ==> exists g: Frame ::
                !g.pinned && Ones(g.accessed) == Ones(old(frames)[i].accessed) - 1 && frames == old(frames)[i := g]
      ensures Position(frames, hand) == old(Position(frames, hand))
    {
      var f := frames[i];
      var j := 0;
      while j < |f.accessed|
        invariant 0 <= j <= |f.accessed| && frames == old(frames) && forall k | 0 <= k < j :: !f.accessed[k]
      {
        if f.accessed[j] {
          OneLess(f.accessed, j);
          var g := f.(accessed := f.accessed[j := false]);
          Relisted(frames, i, g, hand);
          frames := frames[i := g];
          return false;
        }
        j := j + 1;
      }
      return true;
    }

    /** `eviction`: finds a victim, whatever the accessed bits, as long as some frame is not
        pinned.  The victim is not pinned and none of its pages was accessed; the hand is on it.
        It is the frame with the fewest accessed bits, and of those the next one in clock order. */
    method Eviction() returns (victim: nat)
      requires Valid() && exists k: nat :: k < |frames| && !frames[k].pinned
      modifies this
      ensures Valid() && Aged(old(frames), frames)
      ensures victim < |frames| && hand == On(frames[victim].addr)
      ensures !frames[victim].pinned && Ones(frames[victim].accessed) == 0
      ensures forall k: nat | k < |frames| && !old(frames)[k].pinned ::
                Rank(old(frames), old(Position(frames, hand)), victim) <=
                Rank(old(frames), old(Position(frames, hand)), k)
    {
      ghost var k: nat :| k < |frames| && !frames[k].pinned;
      ghost var fs, p, c := frames, Position(frames, hand), 0;
      var found := false;
      victim := 0;
      while !found
        invariant Valid() && Aged(fs, frames) && Closer(fs, p, frames, Position(frames, hand), c)
        invariant found ==> victim < |frames| && hand == On(frames[victim].addr) && Position(frames, hand) == victim
        invariant found ==> !frames[victim].pinned && Ones(frames[victim].accessed) == 0
        decreases !found, Rank(fs, p, k) - c
      {
        assert Rank(frames, Position(frames, hand), k) + c == Rank(fs, p, k);
        found, victim, c := Tick(fs, p, c);
      }
      LeastRank(fs, p, frames, victim, c);
    }

    /** One round of the loop of `eviction`. */
    method Tick(ghost fs: seq<Frame>, ghost p: nat, ghost c: nat) returns (found: bool, i: nat, ghost c': nat)
      requires Valid() && frames != [] && p <= |fs| && Aged(fs, frames)
      requires Closer(fs, p, frames, Position(frames, hand), c)
      modifies this
      ensures Valid() && Aged(fs, frames) && Closer(fs, p, frames, Position(frames, hand), c')
      ensures found ==> c <= c' && i < |frames| && hand == On(frames[i].addr) && Position(frames, hand) == i
      ensures found ==> !frames[i].pinned && Ones(frames[i].accessed) == 0
      ensures !found ==> c < c'
    {
      c' := c;
      if Position(frames, hand) == |frames| {
        Wraps(fs, p, frames, c);
        c' := c + 1;
      }
      i := GetNext();
      IndexIs(frames, i);
      found, c' := Visit(i, fs, p, c');
    }

    method Visit(i: nat, ghost fs: seq<Frame>, ghost p: nat, ghost c: nat) returns (found: bool, ghost c': nat)
      requires Valid() && i < |frames| && hand == On(frames[i].addr) && Position(frames, hand) == i
      requires p <= |fs| && Aged(fs, frames) && Closer(fs, p, frames, i, c)
      modifies this
      ensures Valid() && Aged(fs, frames) && Closer(fs, p, frames, Position(frames, hand), c')
      ensures found ==> c' == c && hand == old(hand) && frames == old(frames)
      ensures found ==> !frames[i].pinned && Ones(frames[i].accessed) == 0
      ensures !found ==> c' == c + 1
    {
      found, c' := false, c;
      if frames[i].pinned {
        Passes(fs, p, frames, i, c');
      } else {
        ghost var before := frames;
        found := ScanAndFlip(i);
        AgedTrans(fs, before, frames);
        if !found {
          ghost var g: Frame :|
            !g.pinned && Ones(g.accessed) == Ones(before[i].accessed) - 1 && frames == before[i := g];
          Flips(fs, p, before, i, g, c');
        }
      }
      if !found {
        MoveNext();
        c' := c' + 1;
      }
    }

    /** `eviction_remove_pointer` */
    method RemovePointer(addr: nat)
      requires Valid() && Listed(frames, addr)
      modifies `hand
      ensures Valid() && hand != On(addr)
      ensures old(hand) != On(addr) ==> hand == old(hand)
    {
      if hand == Null || hand == End {
        return;
      }
      if hand.addr == addr {
        IndexIs(frames, IndexOf(frames, addr));
        MoveNext();
      }
    }

    /** `delete_frame`: the hand, if it was there, goes on to the next frame. */
    method DeleteFrame(addr: nat)
      requires Valid() && Listed(frames, addr)
      modifies this
      ensures Valid() && !Listed(frames, addr)
      ensures var i := IndexOf(old(frames), addr); frames == old(frames)[..i] + old(frames)[i + 1..]
      ensures old(hand) != On(addr) ==> hand == old(hand)
    {
      RemovePointer(addr);
      var i := IndexOf(frames, addr);
      Delisted(frames, i, hand);
      frames := frames[..i] + frames[i + 1..];
    }

    /** `vm_get_frame`, as far as the list is concerned: a new frame is pinned and goes last. */
    method AddFrame(addr: nat)
      requires Valid() && !Listed(frames, addr)
      modifies `frames
      ensures Valid() && frames == old(frames) + [Frame(addr, true, [])]
    {
      ghost var before := frames;
      frames := frames + [Frame(addr, true, [])];
      if hand.On? {
        var i := IndexOf(before, hand.addr);
        assert frames[i].addr == hand.addr;
      }
    }

    /** `vm_frame_pin`, `vm_frame_unpin`, and what the pages of a frame and their accessed bits
        become by loading, sharing and use. */
    method Change(i: nat, g: Frame)
      requires Valid() && i < |frames| && g.addr == frames[i].addr
      modifies `frames
      ensures Valid() && frames == old(frames)[i := g]
    {
      Relisted(frames, i, g, hand);
      frames := frames[i := g];
    }
  }

  lemma AgedTrans(a: seq<Frame>, b: seq<Frame>, c: seq<Frame>)
    requires Aged(a, b) && Aged(b, c)
    ensures Aged(a, c)
  {
    forall i | 0 <= i < |a| ensures AgedFrame(a[i], c[i]) { assert AgedFrame(a[i], b[i]) && AgedFrame(b[i], c[i]); }
  }

  /** Without one frame, the others are still listed, each once. */
  lemma Delisted(fs: seq<Frame>, i: nat, hand: Hand)
    requires Unique(fs) && i < |fs| && HandOk(fs, hand) && hand != On(fs[i].addr)
    ensures var fs' := fs[..i] + fs[i + 1..]; Unique(fs') && HandOk(fs', hand) && !Listed(fs', fs[i].addr)
  {
    var fs' := fs[..i] + fs[i + 1..];
    if hand.On? {
      var p := IndexOf(fs, hand.addr);
      assert fs'[if p < i then p else p - 1].addr == hand.addr;
    }
  }

  /** Changing what a frame says does not move the hand. */
  lemma Relisted(fs: seq<Frame>, i: nat, g: Frame, hand: Hand)
    requires Unique(fs) && i < |fs| && g.addr == fs[i].addr && HandOk(fs, hand)
    ensures Unique(fs[i := g]) && HandOk(fs[i := g], hand) && Position(fs[i := g], hand) == Position(fs, hand)
  {
    if hand.On? {
      var p := IndexOf(fs, hand.addr);
      assert fs[i := g][p].addr == hand.addr;
      IndexIs(fs[i := g], p);
    }
  }
}
