/** Word-packed bitmaps (src/lib/kernel/bitmap.c).  From the outside a bitmap is a sequence
    of bits; the bits of the last word beyond `bit_cnt` belong to no one. */
module Bitmap {
  import opened Common
  import opened Nonlinear
  import opened Bits

  function ElemCnt(bitCnt: nat): nat { (bitCnt + 31) / 32 }

  // ---------------------------------------------------------------- the abstract operations

  predicate AllAre(b: seq<bool>, start: nat, cnt: nat, value: bool)
    requires start + cnt <= |b|
  {
    forall i | start <= i < start + cnt :: b[i] == value
  }

  /** `b` with `cnt` bits from `start` set to `value`. */
  function Filled(b: seq<bool>, start: nat, cnt: nat, value: bool): (r: seq<bool>)
    requires start + cnt <= |b|
    ensures |r| == |b|
    ensures forall i | 0 <= i < |b| :: r[i] == if start <= i < start + cnt then value else b[i]
  {
    seq(|b|, i requires 0 <= i < |b| => if start <= i < start + cnt then value else b[i])
  }

  /** First fit: the lowest index at or after `start` where `cnt` bits are all `value`. */
  ghost predicate FirstFit(b: seq<bool>, start: nat, cnt: nat, value: bool, r: Option<nat>) {
    match r
    case Some(k) =>
      && start <= k && k + cnt <= |b| && AllAre(b, k, cnt, value)
      && forall j | start <= j < k :: !AllAre(b, j, cnt, value)
    case None =>
      forall j | start <= j && j + cnt <= |b| :: !AllAre(b, j, cnt, value)
  }

  lemma FirstFitLeast(b: seq<bool>, start: nat, cnt: nat, value: bool, r: Option<nat>, j: nat)
    requires FirstFit(b, start, cnt, value, r)
    requires start <= j && j + cnt <= |b| && AllAre(b, j, cnt, value)
    ensures r.Some? && r.value <= j
  {}

  /** First fit has one answer, so the contracts below determine what a scan returns. */
  lemma FirstFitUnique(b: seq<bool>, start: nat, cnt: nat, value: bool, r: Option<nat>, r': Option<nat>)
    requires FirstFit(b, start, cnt, value, r) && FirstFit(b, start, cnt, value, r')
    ensures r == r'
  {
    if r.Some? { FirstFitLeast(b, start, cnt, value, r', r.value); }
    if r'.Some? { FirstFitLeast(b, start, cnt, value, r, r'.value); }
  }

  /** No bits at all are found where the search starts, wherever that is; at index 0 only if it
      starts there. */
  lemma FirstFitOfNone(b: seq<bool>, start: nat, value: bool, r: Option<nat>)
    requires FirstFit(b, start, 0, value, r) && start <= |b|
    ensures r == Some(start) && (r == Some(0) <==> start == 0)
  {
    FirstFitLeast(b, start, 0, value, r, start);
  }

  // ---------------------------------------------------------------- words

  /** The bits that a sequence of words stands for. */
  ghost function Unpack(words: seq<nat>, n: nat): (b: seq<bool>)
    requires n <= 32 * |words|
    ensures |b| == n
    ensures forall i | 0 <= i < n :: b[i] == Bit(words[i / 32], i % 32)
  {
    seq(n, i requires 0 <= i < n => Bit(words[i / 32], i % 32))
  }

  /** Changing one bit of one word changes one bit of the sequence. */
  lemma UnpackUpdate(words: seq<nat>, n: nat, idx: nat, word: nat, value: bool)
    requires n <= 32 * |words| && idx < n
    requires forall k | 0 <= k < 32 ::
               Bit(word, k) == if k == idx % 32 then value else Bit(words[idx / 32], k)
    ensures Unpack(words[idx / 32 := word], n) == Unpack(words, n)[idx := value]
  {
    var a, b := Unpack(words[idx / 32 := word], n), Unpack(words, n)[idx := value];
    forall i | 0 <= i < n ensures a[i] == b[i] {
      if i / 32 == idx / 32 {
        assert a[i] == Bit(word, i % 32);
      }
    }
  }

  class BitmapObject {
    const bitCnt: nat
    const bits: array<nat>

    ghost predicate Valid() {
      bits.Length == ElemCnt(bitCnt)
    }

    /** The bitmap as its users see it. */
    ghost function View(): (b: seq<bool>)
      reads bits
      requires Valid()
      ensures |b| == bitCnt
    {
      Unpack(bits[..], bitCnt)
    }

    /** Memory comes with arbitrary contents and is then cleared. */
    constructor (bitCnt: nat)
      ensures Valid() && this.bitCnt == bitCnt && fresh(bits)
      ensures View() == seq(bitCnt, _ => false)
    {
      this.bitCnt := bitCnt;
      bits := new nat[ElemCnt(bitCnt)];
      new;
      SetMultiple(0, bitCnt, false);
    }

    /** `bitmap_mark`: an OR with the mask of the bit. */
    method Mark(idx: nat)
      requires Valid() && idx < bitCnt
      modifies bits
      ensures View() == old(View())[idx := true]
    {
      var word := Or(bits[idx / 32], Pow2(idx % 32));
      forall k | 0 <= k < 32
        ensures Bit(word, k) == if k == idx % 32 then true else Bit(bits[idx / 32], k)
      {
        BitOr(bits[idx / 32], Pow2(idx % 32), k);
        BitPow2(idx % 32, k);
      }
      UnpackUpdate(bits[..], bitCnt, idx, word, true);
      ghost var words := bits[..];
      bits[idx / 32] := word;
      assert bits[..] == words[idx / 32 := word];
    }

    /** `bitmap_reset`: an AND with the complement of the mask. */
    method Reset(idx: nat)
      requires Valid() && idx < bitCnt
      modifies bits
      ensures View() == old(View())[idx := false]
    {
      var word := AndNot(bits[idx / 32], Pow2(idx % 32));
      forall k | 0 <= k < 32
        ensures Bit(word, k) == if k == idx % 32 then false else Bit(bits[idx / 32], k)
      {
        BitAndNot(bits[idx / 32], Pow2(idx % 32), k);
        BitPow2(idx % 32, k);
      }
      UnpackUpdate(bits[..], bitCnt, idx, word, false);
      ghost var words := bits[..];
      bits[idx / 32] := word;
      assert bits[..] == words[idx / 32 := word];
    }

    method Set(idx: nat, value: bool)
      requires Valid() && idx < bitCnt
      modifies bits
      ensures View() == old(View())[idx := value]
    {
      if value {
        Mark(idx);
      } else {
        Reset(idx);
      }
    }

    method Test(idx: nat) returns (r: bool)
      requires Valid() && idx < bitCnt
      ensures r == View()[idx]
    {
      TestMask(bits[idx / 32], idx % 32);
      r := And(bits[idx / 32], Pow2(idx % 32)) != 0;
    }

    method SetMultiple(start: nat, cnt: nat, value: bool)
      requires Valid() && start + cnt <= bitCnt
      modifies bits
      ensures View() == Filled(old(View()), start, cnt, value)
    {
      ghost var b := View();
      var i := 0;
      while i < cnt
        invariant 0 <= i <= cnt
        invariant View() == Filled(b, start, i, value)
      {
        Set(start + i, value);
        assert Filled(b, start, i, value)[start + i := value] == Filled(b, start, i + 1, value);
        i := i + 1;
      }
    }

    /** `bitmap_contains`: whether some bit of the range is `value`. */
    method Contains(start: nat, cnt: nat, value: bool) returns (r: bool)
      requires Valid() && start + cnt <= bitCnt
      ensures r <==> !AllAre(View(), start, cnt, !value)
    {
      var i := 0;
      while i < cnt
        invariant 0 <= i <= cnt
        invariant AllAre(View(), start, i, !value)
      {
        var bit := Test(start + i);
        if bit == value {
          assert View()[start + i] == value;
          return true;
        }
        i := i + 1;
      }
      return false;
    }

    method Scan(start: nat, cnt: nat, value: bool) returns (r: Option<nat>)
      requires Valid() && start <= bitCnt
      ensures FirstFit(View(), start, cnt, value, r)
    {
      if cnt <= bitCnt {
        var last := bitCnt - cnt;
        var i := start;
        while i <= last
          invariant start <= i
          invariant forall j | start <= j < i :: j + cnt <= bitCnt && !AllAre(View(), j, cnt, value)
          decreases last + 1 - i
        {
          var other := Contains(i, cnt, !value);
          if !other {
            return Some(i);
          }
          i := i + 1;
        }
      }
      return None;
    }

    method ScanAndFlip(start: nat, cnt: nat, value: bool) returns (r: Option<nat>)
      requires Valid() && start <= bitCnt
      modifies bits
      ensures FirstFit(old(View()), start, cnt, value, r)
      ensures r == None ==> View() == old(View())
      ensures r.Some? ==> View() == Filled(old(View()), r.value, cnt, !value)
    {
      r := Scan(start, cnt, value);
      if r.Some? {
        SetMultiple(r.value, cnt, !value);
      }
    }
  }

  /** `bitmap_create`: fails without memory for the object, and without memory for the words
      unless there are none. */
  method BitmapCreate(bitCnt: nat, objectMemory: bool, wordMemory: bool) returns (r: BitmapObject?)
    ensures r == null <==> !objectMemory || (!wordMemory && bitCnt > 0)
    ensures r != null ==> fresh(r) && fresh(r.bits) && r.Valid() && r.bitCnt == bitCnt
    ensures r != null ==> r.View() == seq(bitCnt, _ => false)
  {
    if !objectMemory || !(wordMemory || bitCnt == 0) {
      return null;
    }
    r := new BitmapObject(bitCnt);
  }

  /** `bitmap_scan_and_flip` of no bits does not return 0, as its comment says, but the start. */
  method ScanNothing() returns (r: Option<nat>)
    ensures r == Some(3)
  {
    var b := new BitmapObject(5);
    r := b.ScanAndFlip(3, 0, false);
    FirstFitOfNone(seq(5, _ => false), 3, false, r);
  }
}
