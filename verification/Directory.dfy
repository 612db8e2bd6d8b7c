/** Directories (src/filesys/directory.c): a file of slots as a bounded map from names to sectors.

    Every slot is read on its own, through a buffer that may not be there for lack of memory, and
    each loop takes a failed read for the end of the file.  Operations therefore take the number
    of reads that succeed before one fails; a number as large as the directory means none does. */
module Directory {
  import opened Common
  import IO = InodeIO

  const NAME_MAX: nat := 14

  /** `struct dir_entry`, of twenty bytes */
  datatype Slot = Slot(sector: nat, name: string, inUse: bool)

  const ENTRY_SIZE: int := 20

  /** A slot is read or written whole or, without a buffer, not at all: none begins a sector and
      fills it. */
  lemma EntryTransfer(n: nat, k: nat, memory: bool)
    ensures IO.Transfer(ENTRY_SIZE * n, ENTRY_SIZE, ENTRY_SIZE * k, memory) ==
              if k < n && memory then ENTRY_SIZE else 0
  {}

  predicate ValidName(name: string) { 1 <= |name| <= NAME_MAX }

  predicate Has(slots: seq<Slot>, i: nat, name: string)
    requires i < |slots|
  {
    slots[i].inUse && slots[i].name == name
  }

  /** Slots in use have valid names, no two the same. */
  ghost predicate Inv(slots: seq<Slot>) {
    && (forall i | 0 <= i < |slots| && slots[i].inUse :: ValidName(slots[i].name))
    && (forall i, j | 0 <= i < j < |slots| && slots[i].inUse && slots[j].inUse :: slots[i].name != slots[j].name)
  }

  /** The map that the slots stand for; of two slots with the same name the first counts. */
  function AsMap(slots: seq<Slot>): map<string, nat> {
    if slots == [] then map[] else
    var m := AsMap(slots[1..]);
    if slots[0].inUse then m[slots[0].name := slots[0].sector] else m
  }

  function Used(slots: seq<Slot>): (n: nat)
    ensures n <= |slots|
    ensures n == |slots| <==> forall i | 0 <= i < |slots| :: slots[i].inUse
  {
    if slots == [] then 0 else (if slots[0].inUse then 1 else 0) + Used(slots[1..])
  }

  /** The first slot from `i` on that has the name, or the end. */
  function FindName(slots: seq<Slot>, name: string, i: nat): (k: nat)
    requires i <= |slots|
    ensures i <= k <= |slots|
    ensures k < |slots| ==> Has(slots, k, name)
    ensures forall j | i <= j < k :: !Has(slots, j, name)
    decreases |slots| - i
  {
    if i == |slots| || Has(slots, i, name) then i else FindName(slots, name, i + 1)
  }

  /** The first free slot from `i` on, or the end. */
  function FindFree(slots: seq<Slot>, i: nat): (k: nat)
    requires i <= |slots|
    ensures i <= k <= |slots|
    ensures k < |slots| ==> !slots[k].inUse
    ensures forall j | i <= j < k :: slots[j].inUse
    decreases |slots| - i
  {
    if i == |slots| || !slots[i].inUse then i else FindFree(slots, i + 1)
  }

  /** Slot `i` given up. */
  function Erased(slots: seq<Slot>, i: nat): seq<Slot>
    requires i < |slots|
  {
    slots[i := slots[i].(inUse := false)]
  }

  lemma {:induction false} FindInTail(slots: seq<Slot>, name: string, i: nat)
    requires 1 <= i <= |slots|
    ensures FindName(slots, name, i) == FindName(slots[1..], name, i - 1) + 1
    decreases |slots| - i
  {
    if i < |slots| { FindInTail(slots, name, i + 1); }
  }

  /** The map has a name exactly if some slot does, and its sector is that of the first one. */
  lemma {:induction false} MapFinds(slots: seq<Slot>, name: string)
    ensures name in AsMap(slots) <==> FindName(slots, name, 0) < |slots|
    ensures name in AsMap(slots) ==> AsMap(slots)[name] == slots[FindName(slots, name, 0)].sector
  {
    if slots != [] {
      MapFinds(slots[1..], name);
      FindInTail(slots, name, 1);
    }
  }

  /** Maps agree on a name if the slots that have it are the same, with the same sectors. */
  lemma SameFind(slots: seq<Slot>, slots': seq<Slot>, name: string)
    requires |slots'| == |slots|
    requires forall i: nat | i < |slots| :: Has(slots, i, name) <==> Has(slots', i, name)
    requires forall i: nat | i < |slots| && Has(slots, i, name) :: slots'[i].sector == slots[i].sector
    ensures name in AsMap(slots') <==> name in AsMap(slots)
    ensures name in AsMap(slots) ==> AsMap(slots')[name] == AsMap(slots)[name]
  {
    MapFinds(slots, name);
    MapFinds(slots', name);
    var k, k' := FindName(slots, name, 0), FindName(slots', name, 0);
    if k < |slots| { assert Has(slots', k, name); }
    if k' < |slots| { assert Has(slots, k', name); }
    assert k == k';
  }

  lemma InvTail(slots: seq<Slot>)
    requires Inv(slots) && slots != []
    ensures Inv(slots[1..])
  {
    assert forall i | 0 <= i < |slots[1..]| :: slots[1..][i] == slots[i + 1];
  }

  /** The directory is full exactly when the map has as many names as there are slots. */
  lemma {:induction false} MapSize(slots: seq<Slot>)
    requires Inv(slots)
    ensures |AsMap(slots)| == Used(slots)
    ensures |AsMap(slots)| == |slots| <==> FindFree(slots, 0) == |slots|
  {
    if slots != [] {
      InvTail(slots);
      MapSize(slots[1..]);
      var m := AsMap(slots[1..]);
      if slots[0].inUse {
        FirstOnly(slots);
        assert AsMap(slots).Keys == m.Keys + {slots[0].name};
        assert |AsMap(slots)| == |AsMap(slots).Keys| && |m| == |m.Keys|;
      }
    }
  }

  lemma FirstOnly(slots: seq<Slot>)
    requires Inv(slots) && slots != [] && slots[0].inUse
    ensures slots[0].name !in AsMap(slots[1..])
  {
    MapFinds(slots[1..], slots[0].name);
    assert forall i: nat | i < |slots[1..]| :: slots[1..][i] == slots[i + 1];
  }

  /** Filling a free slot adds one name. */
  lemma SlotFilled(slots: seq<Slot>, i: nat, name: string, sector: nat)
    requires i < |slots| && !slots[i].inUse && name !in AsMap(slots)
    ensures AsMap(slots[i := Slot(sector, name, true)]) == AsMap(slots)[name := sector]
    ensures Inv(slots) && ValidName(name) ==> Inv(slots[i := Slot(sector, name, true)])
  {
    var slots' := slots[i := Slot(sector, name, true)];
    MapFinds(slots, name);
    MapFinds(slots', name);
    assert Has(slots', i, name);
    forall n | n != name
      ensures n in AsMap(slots') <==> n in AsMap(slots)
      ensures n in AsMap(slots) ==> AsMap(slots')[n] == AsMap(slots)[n]
    {
      SameFind(slots, slots', n);
    }
    forall j: nat | j < |slots| && slots[j].inUse ensures slots[j].name != name { assert !Has(slots, j, name); }
  }

  /** Erasing the first slot that has a name removes the name, exactly if no other slot has it. */
  lemma SlotErased(slots: seq<Slot>, name: string)
    requires name in AsMap(slots)
    ensures var i := FindName(slots, name, 0);
            && i < |slots|
            && var slots' := Erased(slots, i);
               && (AsMap(slots') == AsMap(slots) - {name} <==> FindName(slots, name, i + 1) == |slots|)
               && (Inv(slots) ==> Inv(slots') && AsMap(slots') == AsMap(slots) - {name})
  {
    MapFinds(slots, name);
    var i := FindName(slots, name, 0);
    var slots' := Erased(slots, i);
    forall n | n != name ensures SameIn(AsMap(slots), AsMap(slots'), n) { OtherName(slots, i, n); }
    MapLess(AsMap(slots), AsMap(slots'), name);
    NameErased(slots, name, i);
    if Inv(slots) { ErasedInv(slots, i); }
  }

  predicate SameIn(m: map<string, nat>, m': map<string, nat>, n: string) {
    (n in m' <==> n in m) && (n in m ==> m'[n] == m[n])
  }

  lemma OtherName(slots: seq<Slot>, i: nat, n: string)
    requires i < |slots| && slots[i].name != n
    ensures SameIn(AsMap(slots), AsMap(Erased(slots, i)), n)
  {
    SameFind(slots, Erased(slots, i), n);
  }

  lemma MapLess(m: map<string, nat>, m': map<string, nat>, name: string)
    requires forall n | n != name :: SameIn(m, m', n)
    ensures m' == m - {name} <==> name !in m'
  {
    if name !in m' {
      forall n ensures n in m' <==> n in m - {name} { assert n != name ==> SameIn(m, m', n); }
      forall n | n in m' ensures m'[n] == m[n] { assert SameIn(m, m', n); }
    }
  }

  lemma ErasedInv(slots: seq<Slot>, i: nat)
    requires Inv(slots) && i < |slots| && slots[i].inUse
    ensures Inv(Erased(slots, i)) && FindName(slots, slots[i].name, i + 1) == |slots|
  {}

  lemma NameErased(slots: seq<Slot>, name: string, i: nat)
    requires i == FindName(slots, name, 0) < |slots|
    ensures name in AsMap(Erased(slots, i)) <==> FindName(slots, name, i + 1) < |slots|
  {
    var slots' := Erased(slots, i);
    MapFinds(slots', name);
    var k, k' := FindName(slots, name, i + 1), FindName(slots', name, 0);
    if k < |slots| { assert Has(slots', k, name); }
    if k' < |slots| { assert Has(slots, k', name); }
  }

  // ---------------------------------------------------------------- adding

  /** `lookup`, when only the first `seen` slots can be read. */
  function LookupAt(slots: seq<Slot>, name: string, seen: nat): (r: Option<nat>)
    ensures r.Some? ==> r.value < |slots| && Has(slots, r.value, name)
  {
    var k := FindName(slots, name, 0);
    if k < |slots| && k < seen then Some(k) else None
  }

  /** `dir_add`: the slot to write is the first one that is free or cannot be read. */
  function Add(slots: seq<Slot>, name: string, sector: nat,
               lookupReads: nat, scanReads: nat, written: bool): (seq<Slot>, bool)
  {
    var ofs := Min(FindFree(slots, 0), scanReads);
    if ValidName(name) && LookupAt(slots, name, lookupReads).None? && ofs < |slots| && written
    then (slots[ofs := Slot(sector, name, true)], true)
    else (slots, false)
  }

  /** Slot `i` is written and no other. */
  predicate Puts(slots: seq<Slot>, slots': seq<Slot>, i: nat, slot: Slot) {
    i < |slots| && slots' == slots[i := slot]
  }

  /** Slot `i` is the first one that is free or is not read. */
  predicate FirstStop(slots: seq<Slot>, i: nat, scans: nat)
    requires i < |slots|
  {
    (i == scans || !slots[i].inUse) && forall j | 0 <= j < i :: j != scans && slots[j].inUse
  }

  /** When `dir_add` reports success: for a name of 1 to 14 characters that no slot has among those that can be
      read, if there is a free slot or one that cannot be read, and it can be written.  It writes
      the first such slot and no other. */
  lemma AddReports(slots: seq<Slot>, name: string, sector: nat, lookupReads: nat, scanReads: nat, written: bool)
    ensures var (slots', ok) := Add(slots, name, sector, lookupReads, scanReads, written);
            && (ok <==>
                && 1 <= |name| <= 14 && written
                && (forall i: nat | i < |slots| && i < lookupReads :: !Has(slots, i, name))
                && (scanReads < |slots| || exists i :: 0 <= i < |slots| && !slots[i].inUse))
            && (ok ==> exists i: nat ::
                  Puts(slots, slots', i, Slot(sector, name, true)) && FirstStop(slots, i, scanReads))
  {
    var (slots', ok) := Add(slots, name, sector, lookupReads, scanReads, written);
    var k := FindName(slots, name, 0);
    if k < |slots| { assert Has(slots, k, name); }
    var i := Min(FindFree(slots, 0), scanReads);
    if ok { assert Puts(slots, slots', i, Slot(sector, name, true)) && FirstStop(slots, i, scanReads); }
  }

  /** What `dir_add` promises: a new name joins the others. */
  ghost predicate Added(slots: seq<Slot>, slots': seq<Slot>, name: string, sector: nat) {
    && |slots'| == |slots| && Inv(slots')
    && name !in AsMap(slots) && AsMap(slots') == AsMap(slots)[name := sector]
  }

  /** When it says that it added a name, it did so exactly if no slot had that name, seen or not,
      and no read failed before the first free slot.  Otherwise it wrote a name that is there
      already, or over the slot of another file.  When it says that it did not, nothing changed. */
  lemma AddExact(slots: seq<Slot>, name: string, sector: nat, lookupReads: nat, scanReads: nat, written: bool)
    requires Inv(slots)
    ensures var (slots', ok) := Add(slots, name, sector, lookupReads, scanReads, written);
            && (!ok ==> slots' == slots)
            && (ok ==> (Added(slots, slots', name, sector) <==>
                        FindName(slots, name, 0) == |slots| && FindFree(slots, 0) <= scanReads))
  {
    var (slots', ok) := Add(slots, name, sector, lookupReads, scanReads, written);
    MapFinds(slots, name);
    if ok {
      var ofs := Min(FindFree(slots, 0), scanReads);
      if name !in AsMap(slots) {
        assert !Has(slots, ofs, name);
        if slots[ofs].inUse { NameLost(slots, ofs, name, sector); } else { SlotFilled(slots, ofs, name, sector); }
      }
    }
  }

  /** The name of an overwritten slot is gone. */
  lemma NameLost(slots: seq<Slot>, i: nat, name: string, sector: nat)
    requires Inv(slots) && i < |slots| && slots[i].inUse && slots[i].name != name
    ensures slots[i].name in AsMap(slots)
    ensures slots[i].name !in AsMap(slots[i := Slot(sector, name, true)])
  {
    MapFinds(slots, slots[i].name);
    MapFinds(slots[i := Slot(sector, name, true)], slots[i].name);
    assert Has(slots, i, slots[i].name);
  }

  /** With memory for every read it does all that is promised, and fails only for an invalid or
      known name, a full directory or a failed write. */
  lemma AddWithMemory(slots: seq<Slot>, name: string, sector: nat, lookupReads: nat, scanReads: nat, written: bool)
    requires Inv(slots) && lookupReads >= |slots| && scanReads >= |slots|
    ensures var (slots', ok) := Add(slots, name, sector, lookupReads, scanReads, written);
            && ok == (ValidName(name) && name !in AsMap(slots) && |AsMap(slots)| < |slots| && written)
            && (ok ==> Added(slots, slots', name, sector))
  {
    AddExact(slots, name, sector, lookupReads, scanReads, written);
    MapFinds(slots, name);
    MapSize(slots);
  }

  /** A failed read in `lookup` makes a second entry for a name that is in use. */
  lemma AddDuplicates()
    ensures var slots := [Slot(7, "a", true), Slot(0, "", false)];
            Inv(slots) && Add(slots, "a", 9, 0, 2, true) == ([Slot(7, "a", true), Slot(9, "a", true)], true)
  {
    var slots := [Slot(7, "a", true), Slot(0, "", false)];
    assert Has(slots, 0, "a");
    assert FindName(slots, "a", 0) == 0 && FindFree(slots, 0) == 1;
    assert slots[1 := Slot(9, "a", true)] == [Slot(7, "a", true), Slot(9, "a", true)];
  }

  /** A failed read in the search for a free slot takes the slot, and the name, of another file. */
  lemma AddOverwrites()
    ensures var slots := [Slot(7, "a", true), Slot(0, "", false)];
            && Inv(slots) && Add(slots, "b", 9, 2, 0, true) == ([Slot(9, "b", true), Slot(0, "", false)], true)
            && "a" in AsMap(slots) && "a" !in AsMap([Slot(9, "b", true), Slot(0, "", false)])
  {
    var slots := [Slot(7, "a", true), Slot(0, "", false)];
    assert !Has(slots, 0, "b") && !Has(slots, 1, "b");
    assert FindName(slots, "b", 0) == 2 && FindFree(slots, 0) == 1;
    NameLost(slots, 0, "b", 9);
    assert slots[0 := Slot(9, "b", true)] == [Slot(9, "b", true), Slot(0, "", false)];
  }

  // ---------------------------------------------------------------- runs

  datatype Op =
    | OpAdd(name: string, sector: nat, lookupReads: nat, scanReads: nat, written: bool)
    | OpRemove(name: string, seen: nat, inodeOpened: bool, written: bool)

  /** What the operation reports. */
  predicate Succeeds(slots: seq<Slot>, op: Op) {
    match op
    case OpAdd(name, sector, lookupReads, scanReads, written) =>
      Add(slots, name, sector, lookupReads, scanReads, written).1
    case OpRemove(name, seen, inodeOpened, written) => LookupAt(slots, name, seen).Some? && inodeOpened && written
  }

  function Step(slots: seq<Slot>, op: Op): seq<Slot> {
    match op
    case OpAdd(name, sector, lookupReads, scanReads, written) =>
      Add(slots, name, sector, lookupReads, scanReads, written).0
    case OpRemove(name, seen, _, _) =>
      if Succeeds(slots, op) then Erased(slots, LookupAt(slots, name, seen).value) else slots
  }

  /** What the operation is to the map. */
  function MapStep(m: map<string, nat>, op: Op): map<string, nat> {
    if op.OpAdd? then m[op.name := op.sector] else m - {op.name}
  }

  /** The condition of `AddExact`. */
  predicate Sound(slots: seq<Slot>, op: Op) {
    op.OpAdd? && Succeeds(slots, op) ==>
      FindName(slots, op.name, 0) == |slots| && FindFree(slots, 0) <= op.scanReads
  }

  /** A step keeps names unique and does to the map what it reports. */
  lemma StepRefines(slots: seq<Slot>, op: Op)
    requires Inv(slots) && Sound(slots, op)
    ensures var slots' := Step(slots, op);
            && Inv(slots') && |slots'| == |slots|
            && AsMap(slots') == if Succeeds(slots, op) then MapStep(AsMap(slots), op) else AsMap(slots)
  {
    match op
    case OpAdd(name, sector, lookupReads, scanReads, written) =>
      AddExact(slots, name, sector, lookupReads, scanReads, written);
    case OpRemove(name, seen, _, _) =>
      MapFinds(slots, name);
      if Succeeds(slots, op) { SlotErased(slots, name); }
  }

  function Run(slots: seq<Slot>, ops: seq<Op>): seq<Slot>
    decreases |ops|
  {
    if ops == [] then slots else Run(Step(slots, ops[0]), ops[1..])
  }

  predicate SoundRun(slots: seq<Slot>, ops: seq<Op>)
    decreases |ops|
  {
    ops == [] || (Sound(slots, ops[0]) && SoundRun(Step(slots, ops[0]), ops[1..]))
  }

  /** The map after those operations that report success. */
  function MapRun(m: map<string, nat>, slots: seq<Slot>, ops: seq<Op>): map<string, nat>
    decreases |ops|
  {
    if ops == [] then m else
    MapRun(if Succeeds(slots, ops[0]) then MapStep(m, ops[0]) else m, Step(slots, ops[0]), ops[1..])
  }

  /** Over every run in which each add that reports success meets the condition, names stay unique
      and the directory is the map that its reports describe. */
  lemma {:induction false} RunRefines(slots: seq<Slot>, ops: seq<Op>)
    requires Inv(slots) && SoundRun(slots, ops)
    ensures Inv(Run(slots, ops)) && AsMap(Run(slots, ops)) == MapRun(AsMap(slots), slots, ops)
    decreases |ops|
  {
    if ops != [] {
      StepRefines(slots, ops[0]);
      RunRefines(Step(slots, ops[0]), ops[1..]);
    }
  }

  /** Whether all reads of an operation on `n` slots succeed. */
  predicate Remembers(op: Op, n: nat) {
    if op.OpAdd? then op.lookupReads >= n && op.scanReads >= n else op.seen >= n
  }

  /** When an operation succeeds on a map with room for `n` names. */
  predicate MapSucceeds(m: map<string, nat>, op: Op, n: nat) {
    && op.written
    && if op.OpAdd? then ValidName(op.name) && op.name !in m && |m| < n else op.name in m && op.inodeOpened
  }

  function BoundedRun(m: map<string, nat>, n: nat, ops: seq<Op>): map<string, nat>
    decreases |ops|
  {
    if ops == [] then m else
    BoundedRun(if MapSucceeds(m, ops[0], n) then MapStep(m, ops[0]) else m, n, ops[1..])
  }

  lemma StepIsMap(slots: seq<Slot>, op: Op)
    requires Inv(slots) && Remembers(op, |slots|)
    ensures Sound(slots, op) && (Succeeds(slots, op) <==> MapSucceeds(AsMap(slots), op, |slots|))
  {
    MapFinds(slots, op.name);
    if op.OpAdd? { AddWithMemory(slots, op.name, op.sector, op.lookupReads, op.scanReads, op.written); }
  }

  /** With memory for every read, a run on the slots is a run on a map with bounded room. */
  lemma {:induction false} RunIsMap(slots: seq<Slot>, ops: seq<Op>)
    requires Inv(slots) && forall op | op in ops :: Remembers(op, |slots|)
    ensures Inv(Run(slots, ops)) && AsMap(Run(slots, ops)) == BoundedRun(AsMap(slots), |slots|, ops)
    decreases |ops|
  {
    if ops != [] {
      StepIsMap(slots, ops[0]);
      StepRefines(slots, ops[0]);
      RunIsMap(Step(slots, ops[0]), ops[1..]);
    }
  }

  // ---------------------------------------------------------------- reading

  /** The names in use, in slot order. */
  function Names(slots: seq<Slot>): seq<string> {
    if slots == [] then [] else (if slots[0].inUse then [slots[0].name] else []) + Names(slots[1..])
  }

  /** A sweep over the slots meets every name of the map once. */
  lemma {:induction false} NamesOnce(slots: seq<Slot>)
    ensures Inv(slots) ==> NoDup(Names(slots))
    ensures forall n :: n in Names(slots) <==> n in AsMap(slots)
  {
    if slots != [] {
      NamesOnce(slots[1..]);
      if Inv(slots) {
        InvTail(slots);
        if slots[0].inUse { FirstOnly(slots); }
      }
    }
  }

  lemma {:induction false} NamesSplit(slots: seq<Slot>, i: nat)
    requires i <= |slots|
    ensures Names(slots) == Names(slots[..i]) + Names(slots[i..])
  {
    if i == 0 {
      assert slots[..0] == [] && slots[0..] == slots;
    } else {
      NamesSplit(slots[1..], i - 1);
      assert slots[..i][1..] == slots[1..][..i - 1] && slots[1..][i - 1..] == slots[i..];
    }
  }

  lemma SweptNames(slots: seq<Slot>, i: nat, names: seq<string>)
    requires i <= |slots| && Names(slots) == names + Names(slots[i..])
    ensures names == Names(slots[..i])
  {
    NamesSplit(slots, i);
    assert names == Names(slots)[..|names|] && Names(slots[..i]) == Names(slots)[..|Names(slots[..i])|];
  }

  /** A sweep that a failed read ends early misses no name exactly if no later slot is in use. */
  lemma SweepComplete(slots: seq<Slot>, total: nat)
    requires Inv(slots) && total <= |slots|
    ensures NoDup(Names(slots[..total]))
    ensures (forall n :: n in Names(slots[..total]) <==> n in AsMap(slots)) <==>
            forall i | total <= i < |slots| :: !slots[i].inUse
  {
    NamesOnce(slots[..total]);
    forall n ensures n in Names(slots[..total]) <==> FindName(slots, n, 0) < total {
      MapFinds(slots[..total], n);
      if k: nat :| k < total && Has(slots, k, n) { assert Has(slots[..total], k, n); }
      if k: nat :| k < total && Has(slots[..total], k, n) { assert Has(slots, k, n); }
    }
    forall n ensures n in AsMap(slots) <==> FindName(slots, n, 0) < |slots| { MapFinds(slots, n); }
    if i :| total <= i < |slots| && slots[i].inUse {
      assert Has(slots, i, slots[i].name);
      assert FindName(slots, slots[i].name, 0) == i;
    }
  }

  /** A failed read with which a sweep misses a name. */
  lemma SweepMisses()
    ensures var slots := [Slot(7, "a", true)];
            Inv(slots) && "a" in AsMap(slots) && "a" !in Names(slots[..0])
  {
    var slots := [Slot(7, "a", true)];
    assert slots[..0] == [];
    assert AsMap(slots) == map["a" := 7];
  }

  lemma {:induction false} AllFree(slots: seq<Slot>)
    requires forall i | 0 <= i < |slots| :: !slots[i].inUse
    ensures Names(slots) == [] && AsMap(slots) == map[]
  {
    if slots != [] { AllFree(slots[1..]); }
  }

  class Dir {
    var slots: seq<Slot>
    /** The next slot that `dir_readdir` looks at. */
    var pos: nat

    /** What the directory maps to what. */
    function Map(): map<string, nat>
      reads this
    {
      AsMap(slots)
    }

    /** `dir_create` and `dir_open`: all slots are free, since new files are zeros. */
    constructor (entryCnt: nat)
      ensures Inv(slots) && Map() == map[] && |slots| == entryCnt && pos == 0
    {
      slots := seq(entryCnt, _ => Slot(0, "", false));
      pos := 0;
      new;
      AllFree(slots);
    }

    /** `lookup` */
    method Lookup(name: string, seen: nat) returns (r: Option<nat>)
      ensures r == LookupAt(slots, name, seen)
      ensures r.Some? ==> r.value < |slots| && name in Map() && Map()[name] == slots[r.value].sector
      ensures r.None? && seen >= |slots| ==> name !in Map()
    {
      MapFinds(slots, name);
      var ofs := 0;
      while ofs < |slots| && ofs < seen
        invariant ofs <= |slots| && ofs <= seen && FindName(slots, name, ofs) == FindName(slots, name, 0)
      {
        if slots[ofs].inUse && slots[ofs].name == name {
          return Some(ofs);
        }
        ofs := ofs + 1;
      }
      return None;
    }

    /** `dir_lookup`, up to opening the inode: a name that is missing is reported so, but a name
        may be reported missing when a read failed before its slot. */
    method DirLookup(name: string, seen: nat) returns (r: Option<nat>)
      ensures r.Some? <==> FindName(slots, name, 0) < Min(seen, |slots|)
      ensures r.Some? ==> name in Map() && r.value == Map()[name]
      ensures seen >= |slots| ==> r == if name in Map() then Some(Map()[name]) else None
    {
      var ofs := Lookup(name, seen);
      r := if ofs.Some? then Some(slots[ofs.value].sector) else None;
    }

    /** `dir_add`; `written` says whether the slot can be written.  A directory does not grow. */
    method DirAdd(name: string, sector: nat, lookupReads: nat, scanReads: nat, written: bool) returns (ok: bool)
      modifies `slots
      ensures (slots, ok) == Add(old(slots), name, sector, lookupReads, scanReads, written)
      ensures old(Inv(slots)) && ok ==>
                (Added(old(slots), slots, name, sector) <==>
                 name !in old(Map()) && FindFree(old(slots), 0) <= scanReads)
      ensures old(Inv(slots)) && lookupReads >= |slots| && scanReads >= |slots| ==>
                ok == (ValidName(name) && name !in old(Map()) && |old(Map())| < |slots| && written)
    {
      ghost var before := slots;
      if Inv(before) {
        AddExact(before, name, sector, lookupReads, scanReads, written);
        MapFinds(before, name);
        if lookupReads >= |before| && scanReads >= |before| {
          AddWithMemory(before, name, sector, lookupReads, scanReads, written);
        }
      }
      ok := AddSteps(name, sector, lookupReads, scanReads, written);
    }

    method AddSteps(name: string, sector: nat, lookupReads: nat, scanReads: nat, written: bool) returns (ok: bool)
      modifies `slots
      ensures (slots, ok) == Add(old(slots), name, sector, lookupReads, scanReads, written)
    {
      if name == "" || |name| > NAME_MAX {
        return false;
      }
      var there := Lookup(name, lookupReads);
      if there.Some? {
        return false;
      }
      var ofs := FreeSlot(scanReads);
      if ofs == |slots| || !written {
        return false;
      }
      slots := slots[ofs := Slot(sector, name, true)];
      return true;
    }

    /** The loop of `dir_add` that finds a free slot, or what it takes for the end of the file. */
    method FreeSlot(seen: nat) returns (ofs: nat)
      ensures ofs <= |slots| && ofs == Min(FindFree(slots, 0), seen)
      ensures ofs < seen && ofs < |slots| ==> !slots[ofs].inUse
    {
      ofs := 0;
      while ofs < |slots| && ofs < seen && slots[ofs].inUse
        invariant ofs <= |slots| && ofs <= seen && FindFree(slots, ofs) == FindFree(slots, 0)
      {
        ofs := ofs + 1;
      }
    }

    /** `dir_remove`, without the removal of the inode; `inodeOpened` says whether that inode
        could be opened. */
    method DirRemove(name: string, seen: nat, inodeOpened: bool, written: bool) returns (ok: bool)
      modifies `slots
      ensures ok == (LookupAt(old(slots), name, seen).Some? && inodeOpened && written)
      ensures !ok ==> slots == old(slots)
      ensures ok ==> name in old(Map())
      ensures ok ==> var i := FindName(old(slots), name, 0);
                     && slots == Erased(old(slots), i)
                     && (Map() == old(Map()) - {name} <==> FindName(old(slots), name, i + 1) == |slots|)
      ensures old(Inv(slots)) ==> Inv(slots) && (ok ==> Map() == old(Map()) - {name})
    {
      var ofs := Lookup(name, seen);
      if ofs.None? || !inodeOpened {
        return false;
      }
      SlotErased(slots, name);
      ok := Erase(ofs.value, written);
    }

    /** Marks a slot as free, if it can be written. */
    method Erase(ofs: nat, written: bool) returns (ok: bool)
      requires ofs < |slots|
      modifies `slots
      ensures ok == written
      ensures slots == if written then Erased(old(slots), ofs) else old(slots)
    {
      if written {
        slots := slots[ofs := slots[ofs].(inUse := false)];
      }
      return written;
    }

    /** The names still to be read. */
    function Left(): seq<string>
      reads this
      requires pos <= |slots|
    {
      Names(slots[pos..])
    }

    /** `dir_readdir`: the names come in order.  There is none after the last, nor when a read
        fails, and then the slot that could not be read is still to come. */
    method ReadDir(seen: nat) returns (r: Option<string>)
      requires pos <= |slots|
      modifies `pos
      ensures old(pos) <= pos <= Min(old(pos) + seen, |slots|)
      ensures r.Some? ==> old(Left()) == [r.value] + Left()
      ensures r.None? ==> old(Left()) == Left()
      ensures r.None? ==> pos == Min(old(pos) + seen, |slots|)
      ensures r.Some? ==> old(pos) < pos && slots[pos - 1].inUse && slots[pos - 1].name == r.value
      ensures forall i | old(pos) <= i < (if r.Some? then pos - 1 else pos) :: !slots[i].inUse
    {
      var stop := pos + seen;
      while pos < |slots| && pos < stop
        invariant old(pos) <= pos <= Min(old(pos) + seen, |slots|) && Left() == old(Left())
        invariant forall i | old(pos) <= i < pos :: !slots[i].inUse
      {
        assert slots[pos..][1..] == slots[pos + 1..];
        pos := pos + 1;
        if slots[pos - 1].inUse {
          return Some(slots[pos - 1].name);
        }
      }
      return None;
    }

    /** An uninterrupted sweep from the start, until the read after the first `total` fails. */
    method Sweep(total: nat) returns (names: seq<string>)
      requires pos == 0
      modifies `pos
      ensures names == Names(slots[..Min(total, |slots|)]) && (Inv(slots) ==> NoDup(names))
      ensures Inv(slots) ==>
                ((forall n :: n in names <==> n in Map()) <==> forall i | total <= i < |slots| :: !slots[i].inUse)
    {
      if Inv(slots) { SweepComplete(slots, Min(total, |slots|)); }
      names := SweepSteps(total);
    }

    method SweepSteps(total: nat) returns (names: seq<string>)
      requires pos == 0
      modifies `pos
      ensures names == Names(slots[..Min(total, |slots|)])
    {
      ghost var all := Names(slots);
      assert slots[0..] == slots;
      names := [];
      var r := ReadDir(total);
      while r.Some?
        invariant pos <= total && pos <= |slots| && (r.None? ==> pos == Min(total, |slots|))
        invariant r.Some? ==> all == names + ([r.value] + Left())
        invariant r.None? ==> all == names + Left()
        decreases r.Some?, |slots| - pos
      {
        ghost var left := Left();
        assert names + ([r.value] + left) == names + [r.value] + left;
        names := names + [r.value];
        r := ReadDir(total - pos);
      }
      SweptNames(slots, pos, names);
    }
  }
}
