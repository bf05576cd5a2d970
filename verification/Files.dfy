/** What programs rely on: new files are zero, and operations succeed exactly when they can. */
module Files {
  import opened Common
  import opened Bitmaps
  import opened Inode
  import opened FileSystem
  import D = Directory

  function ZeroBytes(n: nat): (r: seq<Byte>)
    ensures |r| == n
  {
    seq(n, _ => 0)
  }

  // ---------- New files ----------

  /** A file all of whose sectors are zero reads as zeros. */
  lemma FlatZero(disk: seq<Sector>, e: Extent)
    requires Fits(disk, e)
    requires forall k, i :: e.start <= k < e.start + BytesToSectors(e.length) && 0 <= i < SECTOR_SIZE ==>
             disk[k][i] == 0
    ensures Flat(disk, e) == ZeroBytes(e.length)
  {
    forall k | 0 <= k < e.length
      ensures Flat(disk, e)[k] == 0
    {
      FlatAt(disk, e, k);
      assert k / SECTOR_SIZE < BytesToSectors(e.length);
    }
  }

  /** The file whose inode is made at x reads as zeros. */
  lemma InodeCreateZero(s: State, x: nat, length: nat, calloc: bool, mapOk: bool)
    requires |s.freeMap| == |s.disk| && x < |s.disk| && s.freeMap[x] && InodeCreate(s, x, length, calloc, mapOk).0
    ensures var s' := InodeCreate(s, x, length, calloc, mapOk).1;
            && x < |s'.disk| && s'.disk[x].Node? && Within(s'.disk, s'.disk[x].e)
            && FileBytes(s'.disk, x) == ZeroBytes(length)
  {
    var s' := InodeCreate(s, x, length, calloc, mapOk).1;
    var e := s'.disk[x].e;
    forall k, i | e.start <= k < e.start + BytesToSectors(e.length) && 0 <= i < SECTOR_SIZE
      ensures Raw(s'.disk)[k][i] == 0
    {
      assert s'.disk[k] == Data(ZeroSector());
    }
    FlatZero(Raw(s'.disk), e);
  }

  /** A new file has the length asked for and reads as zeros, whatever its sectors held before. */
  lemma CreatedZero(s: State, name: seq<Byte>, length: nat, luck: Luck)
    requires Inv(s) && Create(s, name, length, luck).0
    ensures var s' := Create(s, name, length, luck).1;
            && Inv(s') && name in s'.dir && Live(s', s'.dir[name]) && Held(s', s'.dir[name])
            && FileBytes(s'.disk, s'.dir[name]) == ZeroBytes(length)
  {
    CreateKeepsInv(s, name, length, luck);
    CreateTakes(s, name, length, luck);
    var a := Allocate(s.freeMap, 1, luck.map1);
    InodeCreateZero(s.(freeMap := a.1), a.0.value, length, luck.calloc, luck.map2);
  }

  /** Over every run a file reads as what was written to it since it was made, and zeros elsewhere. */
  lemma RunFromCreation(s: State, name: seq<Byte>, length: nat, luck: Luck, ops: seq<Op>, s': State)
    requires Inv(s) && Create(s, name, length, luck).0 && Inv(Create(s, name, length, luck).1)
    requires name in Create(s, name, length, luck).1.dir
    requires Runs(Create(s, name, length, luck).1, ops, s')
    requires StaysLive(Create(s, name, length, luck).1, ops, Create(s, name, length, luck).1.dir[name])
    ensures var x := Create(s, name, length, luck).1.dir[name];
            && Inv(s') && Live(s', x) && Held(s', x) && FileBytes(s'.disk, x) == Written(ZeroBytes(length), ops, x)
  {
    CreatedZero(s, name, length, luck);
    var t := Create(s, name, length, luck).1;
    RunKeepsFile(t, ops, s', t.dir[name]);
  }

  /** The free map's file and the root directory start out as zeros. */
  lemma FormatZero(sectors: nat, mapLength: nat)
    requires sectors >= 2 && Format(sectors, mapLength).0
    ensures var s := Format(sectors, mapLength).1;
            && Inv(s) && Live(s, 0) && Live(s, 1) && Held(s, 0) && Held(s, 1)
            && FileBytes(s.disk, 0) == ZeroBytes(mapLength) && FileBytes(s.disk, 1) == ZeroBytes(320)
  {
    var b := Blank(sectors);
    var m := InodeCreate(b, FREE_MAP_SECTOR, mapLength, true, true).1;
    InodeCreateZero(b, FREE_MAP_SECTOR, mapLength, true, true);
    InodeCreateZero(m, ROOT_DIR_SECTOR, ROOT_DIR_LENGTH, true, true);
    FormatOk(sectors, mapLength);
    var s := Format(sectors, mapLength).1;
    assert Live(s, 0) && Live(s, 1) && Held(s, 0) && Held(s, 1);
    var e := m.disk[0].e;
    assert s.disk[0] == m.disk[0];
    forall k | e.start <= k < e.start + BytesToSectors(e.length)
      ensures Raw(s.disk)[k] == Raw(m.disk)[k]
    {
      assert m.freeMap[k];
    }
    FlatLocal(Raw(m.disk), Raw(s.disk), e);
  }

  // ---------- When operations succeed ----------

  /** i is the first free sector. */
  ghost predicate FirstFree(m: seq<bool>, i: nat) {
    i < |m| && !m[i] && forall k :: 0 <= k < i ==> m[k]
  }

  ghost predicate HasRun(m: seq<bool>, n: nat) {
    exists j: nat :: RunAt(m, j, n, false)
  }

  /** There is a sector, and after taking the first one n more in a row. */
  ghost predicate HasRoom(m: seq<bool>, n: nat) {
    exists i: nat :: FirstFree(m, i) && HasRun(m[i := true], n)
  }

  /** An allocation succeeds exactly when the run exists and the map can be written. */
  lemma AllocateOkIff(m: seq<bool>, n: nat, writeOk: bool)
    ensures Allocate(m, n, writeOk).0.Some? <==> writeOk && HasRun(m, n)
  {
    if HasRun(m, n) {
      var j: nat :| RunAt(m, j, n, false);
      assert FirstRun(m, 0, n, false).Some?;
    }
  }

  lemma AllocateOne(m: seq<bool>, i: nat)
    requires FirstFree(m, i)
    ensures Allocate(m, 1, true) == (Some(i), m[i := true])
  {
    NextFree(m, i);
  }

  lemma NoneFree(m: seq<bool>, writeOk: bool)
    requires !writeOk || forall i: nat :: !FirstFree(m, i)
    ensures Allocate(m, 1, writeOk).0.None?
  {
    var r := FirstRun(m, 0, 1, false);
    if writeOk && r.Some? {
      assert RunAt(m, r.value, 1, false) && !m[r.value];
      forall k | 0 <= k < r.value
        ensures m[k]
      {
        assert !RunAt(m, k, 1, false);
      }
      assert FirstFree(m, r.value);
    }
  }

  /**
   * `filesys_create` succeeds exactly for a new valid name with room in the directory, when there is a sector for the
   * inode and then a run of sectors for the data, and no disk or memory operation fails. The inode is in the first free
   * sector.
   */
  lemma CreateOkIff(s: State, name: seq<Byte>, length: nat, luck: Luck)
    requires Inv(s)
    ensures Create(s, name, length, luck).0 <==>
              && luck.root && luck.map1 && luck.calloc && luck.map2 && luck.slot
              && 0 < |name| <= 14 && 0 !in name && name !in s.dir
              && HasRoom(s.freeMap, BytesToSectors(length))
    ensures Create(s, name, length, luck).0 ==>
              && name in Create(s, name, length, luck).1.dir
              && FirstFree(s.freeMap, Create(s, name, length, luck).1.dir[name])
  {
    var n := BytesToSectors(length);
    if i: nat :| luck.map1 && FirstFree(s.freeMap, i) {
      AllocateOne(s.freeMap, i);
      AllocateOkIff(s.freeMap[i := true], n, luck.map2);
      assert forall k: nat :: FirstFree(s.freeMap, k) ==> k == i;
    } else {
      NoneFree(s.freeMap, luck.map1);
    }
  }

  /** `filesys_open` succeeds exactly for a name that is there, unless memory runs out, and gives that name's inode. */
  lemma OpenOkIff(s: State, name: seq<Byte>, luck: Luck)
    requires Inv(s)
    ensures Sound(s)
    ensures Open(s, name, luck).0.Some? <==>
              luck.root && name in s.dir && (s.dir[name] in s.open || luck.inode) && luck.file
    ensures Open(s, name, luck).0.Some? ==> Open(s, name, luck).0 == Some(s.dir[name])
  {
    InvIsSound(s);
  }

  /** `filesys_remove` succeeds exactly for a name that is there, unless memory or disk fails; the name is then gone. */
  lemma RemoveOkIff(s: State, name: seq<Byte>, luck: Luck)
    requires Inv(s)
    ensures Sound(s)
    ensures Remove(s, name, luck).0 <==>
              luck.root && name in s.dir && (s.dir[name] in s.open || luck.inode) && luck.erase
    ensures Remove(s, name, luck).1.dir == if Remove(s, name, luck).0 then s.dir - {name} else s.dir
  {
    InvIsSound(s);
    if luck.root && name in s.dir && InodeOpen(s, s.dir[name], luck.inode).0 {
      var o := RemoveCases(s, name, luck);
    }
  }

  // ---------- Opens and closes ----------

  /** How many openers x has. */
  function Openers(s: State, x: nat): nat {
    if x in s.open then s.open[x].cnt else 0
  }

  lemma InodeOpenOpeners(s: State, x: nat, inodeOk: bool, y: nat)
    requires x < |s.disk| && s.disk[x].Node?
    ensures Openers(InodeOpen(s, x, inodeOk).1, y) ==
              Openers(s, y) + if y == x && InodeOpen(s, x, inodeOk).0 then 1 else 0
  {
  }

  lemma CloseOpeners(s: State, x: nat, y: nat)
    requires Inv(s) && x in s.open
    ensures Held(s, x) && s.disk[x].e == s.open[x].data && s.open[x].cnt > 0
    ensures Openers(InodeClose(s, x), y) == Openers(s, y) - if y == x then 1 else 0
  {
    InodeCloseKeepsInv(s, x);
  }

  lemma OpenOpeners(s: State, name: seq<Byte>, luck: Luck, y: nat)
    requires Inv(s) && Sound(s)
    ensures Openers(Open(s, name, luck).1, y) == Openers(s, y) + if Open(s, name, luck).0 == Some(y) then 1 else 0
  {
    if luck.root && name in s.dir {
      var x := s.dir[name];
      var o := InodeOpen(s, x, luck.inode);
      InodeOpenKeepsInv(s, x, luck.inode);
      InodeOpenOpeners(s, x, luck.inode, y);
      if o.0 {
        CloseOpeners(o.1, x, y);
      }
    }
  }

  /** The two ways in which `filesys_remove` gets as far as the file's inode. */
  lemma RemoveCases(s: State, name: seq<Byte>, luck: Luck) returns (o: State)
    requires Inv(s) && Sound(s) && luck.root && name in s.dir && InodeOpen(s, s.dir[name], luck.inode).0
    ensures o == InodeOpen(s, s.dir[name], luck.inode).1 && Inv(o) && s.dir[name] in o.open && o.dir == s.dir
    ensures Inv(Erased(o, name)) && Held(o, s.dir[name]) && o.disk[s.dir[name]].e == o.open[s.dir[name]].data
    ensures o.open[s.dir[name]].cnt > 0 && |o.freeMap| == |o.disk|
    ensures Remove(s, name, luck) ==
              if luck.erase then (true, InodeClose(Erased(o, name), s.dir[name]))
              else (false, InodeClose(o, s.dir[name]))
  {
    o := InodeOpen(s, s.dir[name], luck.inode).1;
    InodeOpenKeepsInv(s, s.dir[name], luck.inode);
    ErasedKeepsInv(o, name);
    InodeCloseKeepsInv(o, s.dir[name]);
  }

  lemma RemoveOpeners(s: State, name: seq<Byte>, luck: Luck, y: nat)
    requires Inv(s) && Sound(s)
    ensures Openers(Remove(s, name, luck).1, y) == Openers(s, y)
  {
    if luck.root && name in s.dir && InodeOpen(s, s.dir[name], luck.inode).0 {
      var o := RemoveCases(s, name, luck);
      var x := s.dir[name];
      InodeOpenOpeners(s, x, luck.inode, y);
      CloseOpeners(o, x, y);
      CloseOpeners(Erased(o, name), x, y);
    }
  }

  /** Every successful open adds an opener, every close takes one away, and nothing else changes their number. */
  lemma StepOpeners(s: State, op: Op, x: nat)
    requires Inv(s) && Enabled(s, op) && Sound(s)
    ensures Openers(Step(s, op), x) == Openers(s, x)
              + (if op.OpOpen? && Open(s, op.name, op.luck).0 == Some(x) then 1 else 0)
              - (if op == OpClose(x) then 1 else 0)
  {
    match op
    case OpCreate(name, length, luck) => CreateEffect(s, name, length, luck);
    case OpRemove(name, luck) => RemoveOpeners(s, name, luck, x);
    case OpOpen(name, luck) => OpenOpeners(s, name, luck, x);
    case OpClose(y) => CloseOpeners(s, y, x);
    case OpWrite(_, _, _) =>
  }

  /** The opens of x less the closes in a run. */
  ghost function NetOpens(s: State, ops: seq<Op>, x: nat): int
    requires Inv(s)
    decreases |ops|
  {
    if ops == [] || !Enabled(s, ops[0]) then 0
    else
      InvIsSound(s);
      StepKeepsInv(s, ops[0]);
      var opens := if ops[0].OpOpen? && Open(s, ops[0].name, ops[0].luck).0 == Some(x) then 1 else 0;
      opens - (if ops[0] == OpClose(x) then 1 else 0) + NetOpens(Step(s, ops[0]), ops[1..], x)
  }

  /** Over every run the number of openers is the opens less the closes. */
  lemma {:induction false} RunOpeners(s: State, ops: seq<Op>, s': State, x: nat)
    requires Inv(s) && Runs(s, ops, s')
    ensures Openers(s', x) == Openers(s, x) + NetOpens(s, ops, x)
    decreases |ops|
  {
    if ops != [] {
      InvIsSound(s);
      StepKeepsInv(s, ops[0]);
      StepOpeners(s, ops[0], x);
      RunOpeners(Step(s, ops[0]), ops[1..], s', x);
    }
  }

  /** A close gives sectors back exactly if it is the last one of a removed file, and then all of that file's. */
  lemma CloseFreesIff(s: State, x: nat, k: nat)
    requires Inv(s) && x in s.open && k < |s.freeMap|
    ensures Held(s, x) && s.disk[x].e == s.open[x].data && s.open[x].cnt > 0
    ensures k < |InodeClose(s, x).freeMap|
    ensures InodeClose(s, x).freeMap[k] <==>
              s.freeMap[k] && !(s.open[x].cnt == 1 && s.open[x].removed && Owns(s.disk, x, k))
  {
    InodeCloseKeepsInv(s, x);
  }

  /**
   * Removing an open file gives nothing back but marks it; removing one that is not open gives back all its sectors.
   */
  lemma RemoveFreesIff(s: State, name: seq<Byte>, luck: Luck, k: nat)
    requires Inv(s) && Sound(s) && Remove(s, name, luck).0 && k < |s.freeMap|
    ensures name in s.dir && k < |Remove(s, name, luck).1.freeMap|
    ensures Remove(s, name, luck).1.freeMap[k] <==>
              s.freeMap[k] && !(s.dir[name] !in s.open && Owns(s.disk, s.dir[name], k))
    ensures s.dir[name] in s.open ==>
              s.dir[name] in Remove(s, name, luck).1.open && Remove(s, name, luck).1.open[s.dir[name]].removed
  {
    var o := RemoveCases(s, name, luck);
    var x := s.dir[name];
    CloseFreesIff(Erased(o, name), x, k);
  }
}
