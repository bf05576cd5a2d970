/** The file system over a root directory of slots: the directory's map is what the slots stand for, in every run. */
module Catalog {
  import opened Common
  import opened FileSystem
  import D = Directory

  /** The slots are those of a directory whose names are the file system's. */
  ghost predicate Backed(s: State, slots: seq<D.Entry>) {
    D.AllWellFormed(slots) && D.Unique(slots) && D.AsMap(slots) == s.dir && |s.disk| <= D.SECTOR_RANGE
  }

  /** Names are C strings, and a slot is free for a new name exactly if there is one. */
  predicate Truthful(slots: seq<D.Entry>, op: Op) {
    op.OpCreate? ==> 0 !in op.name && op.luck.slot == (D.FirstFree(slots) < |slots|)
  }

  /** The slots after an operation: what `dir_add` and `dir_remove` make of them where they are reached. */
  ghost function SlotsAfter(s: State, slots: seq<D.Entry>, op: Op): seq<D.Entry>
    requires Inv(s) && Backed(s, slots) && Truthful(slots, op)
  {
    InvIsSound(s);
    match op
    case OpCreate(name, length, luck) =>
      var a := Allocate(s.freeMap, 1, luck.map1);
      if luck.root && a.0.Some? && InodeCreate(s.(freeMap := a.1), a.0.value, length, luck.calloc, luck.map2).0
      then D.Add(slots, name, a.0.value).1 else slots
    case OpRemove(name, luck) =>
      if luck.root && D.Find(slots, name) < |slots| && luck.erase && name in s.dir
      then D.Remove(slots, name, InodeOpen(s, s.dir[name], luck.inode).0).1 else slots
    case _ => slots
  }

  lemma CreateIsBacked(s: State, slots: seq<D.Entry>, op: Op)
    requires Inv(s) && Enabled(s, op) && Backed(s, slots) && Truthful(slots, op) && op.OpCreate?
    ensures D.AllWellFormed(SlotsAfter(s, slots, op)) && D.Unique(SlotsAfter(s, slots, op))
    ensures D.AsMap(SlotsAfter(s, slots, op)) == Step(s, op).dir
  {
    var a := Allocate(s.freeMap, 1, op.luck.map1);
    if a.0.Some? {
      D.AddIsInsert(slots, op.name, a.0.value);
      D.AddKeepsUnique(slots, op.name, a.0.value);
      D.MapSize(slots);
    }
  }

  lemma RemoveIsBacked(s: State, slots: seq<D.Entry>, op: Op)
    requires Inv(s) && Enabled(s, op) && Backed(s, slots) && op.OpRemove?
    ensures D.AllWellFormed(SlotsAfter(s, slots, op)) && D.Unique(SlotsAfter(s, slots, op))
    ensures D.AsMap(SlotsAfter(s, slots, op)) == Step(s, op).dir
  {
    InvIsSound(s);
    D.MapHas(slots, op.name);
    if op.name in s.dir {
      var ok := InodeOpen(s, s.dir[op.name], op.luck.inode).0;
      D.RemoveIsDelete(slots, op.name, ok);
      D.RemoveKeepsUnique(slots, op.name, ok);
    }
  }

  lemma StepIsBacked(s: State, slots: seq<D.Entry>, op: Op)
    requires Inv(s) && Enabled(s, op) && Backed(s, slots) && Truthful(slots, op)
    ensures Backed(Step(s, op), SlotsAfter(s, slots, op)) && |SlotsAfter(s, slots, op)| == |slots|
  {
    match op
    case OpCreate(name, length, luck) =>
      CreateIsBacked(s, slots, op);
      CreateEffect(s, name, length, luck);
    case OpRemove(_, _) => RemoveIsBacked(s, slots, op);
    case _ =>
  }

  /** In this run every creation finds a free slot exactly when the slots at that moment have one. */
  ghost predicate TruthfulRun(s: State, slots: seq<D.Entry>, ops: seq<Op>)
    requires Inv(s) && Backed(s, slots)
    decreases |ops|
  {
    ops == [] || !Enabled(s, ops[0]) ||
    (Truthful(slots, ops[0]) &&
      (StepKeepsInv(s, ops[0]); StepIsBacked(s, slots, ops[0]);
       TruthfulRun(Step(s, ops[0]), SlotsAfter(s, slots, ops[0]), ops[1..])))
  }

  /** Over every run the file system's names are those of a directory with the same number of slots. */
  lemma {:induction false} RunIsBacked(s: State, slots: seq<D.Entry>, ops: seq<Op>, s': State)
      returns (slots': seq<D.Entry>)
    requires Inv(s) && Backed(s, slots) && Runs(s, ops, s') && TruthfulRun(s, slots, ops)
    ensures Backed(s', slots') && |slots'| == |slots| && |s'.dir| <= |slots|
    decreases |ops|
  {
    if ops == [] {
      slots' := slots;
      D.MapSize(slots);
    } else {
      StepKeepsInv(s, ops[0]);
      StepIsBacked(s, slots, ops[0]);
      slots' := RunIsBacked(Step(s, ops[0]), SlotsAfter(s, slots, ops[0]), ops[1..], s');
    }
  }

  /** A new disk's empty directory. */
  lemma FreshIsBacked(sectors: nat, mapLength: nat, slots: seq<D.Entry>)
    requires 2 <= sectors <= D.SECTOR_RANGE && Format(sectors, mapLength).0
    requires D.AllWellFormed(slots) && forall i :: 0 <= i < |slots| ==> !slots[i].inUse
    ensures Backed(Format(sectors, mapLength).1, slots)
  {
    var m, e, f := FormatEffect(sectors, mapLength);
    NoNames(slots);
  }

  lemma {:induction false} NoNames(slots: seq<D.Entry>)
    requires forall i :: 0 <= i < |slots| ==> !slots[i].inUse
    ensures D.AsMap(slots) == map[]
  {
    if slots != [] {
      NoNames(slots[1..]);
    }
  }
}
