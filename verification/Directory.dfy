/** Directories: fixed-size slots in a file, used as a bounded map from names to inode sectors (filesys/directory.c). */
module Directory {
  import opened Common

  const NAME_MAX: nat := 14
  const NAME_SIZE: nat := NAME_MAX + 1
  const ENTRY_SIZE: nat := 20
  const SECTOR_RANGE: nat := 0x1_0000_0000

  /** struct dir_entry; `chars` is the whole name field, null and stale bytes behind it included. */
  datatype Entry = Entry(sector: nat, chars: seq<Byte>, inUse: bool)

  // ---------- Names ----------

  /** The bytes before the first null. */
  function CString(s: seq<Byte>): (r: seq<Byte>)
    ensures 0 !in r && |r| <= |s|
  {
    if s == [] || s[0] == 0 then [] else [s[0]] + CString(s[1..])
  }

  function Name(e: Entry): seq<Byte> {
    CString(e.chars)
  }

  /** `strlcpy` into a name field: what lies behind the null stays. */
  function Copied(chars: seq<Byte>, name: seq<Byte>): (r: seq<Byte>)
    requires |name| < |chars|
    ensures |r| == |chars|
  {
    name + [0] + chars[|name| + 1..]
  }

  lemma {:induction false} CStringOf(name: seq<Byte>, rest: seq<Byte>)
    requires 0 !in name
    ensures CString(name + [0] + rest) == name
  {
    var s := name + [0] + rest;
    if name == [] {
      assert s == [0] + rest;
    } else {
      assert s[1..] == name[1..] + [0] + rest;
      CStringOf(name[1..], rest);
    }
  }

  // ---------- Slots ----------

  predicate WellFormed(e: Entry) {
    e.sector < SECTOR_RANGE && |e.chars| == NAME_SIZE
  }

  lemma SectorRange()
    ensures Pow256(4) == SECTOR_RANGE
  {
    assert Pow256(2) == 65536;
  }

  function Encode(e: Entry): (r: seq<Byte>)
    requires WellFormed(e)
    ensures |r| == ENTRY_SIZE
  {
    ToBytes(e.sector, 4) + e.chars + [if e.inUse then 1 else 0]
  }

  function Decode(b: seq<Byte>): (e: Entry)
    requires |b| == ENTRY_SIZE
    ensures WellFormed(e)
  {
    SectorRange();
    Entry(FromBytes(b[..4]), b[4..19], b[19] != 0)
  }

  /** Where the fields of an entry stand: the sector in four bytes, low byte first, then the name, then the mark. */
  lemma EntryLayout(e: Entry)
    requires WellFormed(e)
    ensures var b := Encode(e);
            && e.sector == b[0] as int + 0x100 * (b[1] as int) + 0x1_0000 * (b[2] as int) + 0x100_0000 * (b[3] as int)
            && (forall k :: 0 <= k < 15 ==> b[4 + k] == e.chars[k])
            && b[19] == if e.inUse then 1 else 0
  {
    SectorRange();
    BytesRoundTrip(e.sector, 4);
    FourBytes(ToBytes(e.sector, 4));
  }

  lemma DecodeEncode(e: Entry)
    requires WellFormed(e)
    ensures Decode(Encode(e)) == e
  {
    SectorRange();
    BytesRoundTrip(e.sector, 4);
    assert Encode(e)[..4] == ToBytes(e.sector, 4);
    assert Encode(e)[4..19] == e.chars;
  }

  /** The slots of a directory file; an incomplete one at its end is never read. */
  function Slots(data: seq<Byte>): seq<Entry> {
    if |data| < ENTRY_SIZE then [] else [Decode(data[..ENTRY_SIZE])] + Slots(data[ENTRY_SIZE..])
  }

  lemma SliceShift(data: seq<Byte>, o: nat)
    requires o + 2 * ENTRY_SIZE <= |data|
    ensures data[ENTRY_SIZE..][o..o + ENTRY_SIZE] == data[o + ENTRY_SIZE..o + ENTRY_SIZE + ENTRY_SIZE]
  {
  }

  lemma {:induction false} SlotAt(data: seq<Byte>, i: nat)
    ensures i < |Slots(data)| <==> ENTRY_SIZE * i + ENTRY_SIZE <= |data|
    ensures i < |Slots(data)| ==> Slots(data)[i] == Decode(data[ENTRY_SIZE * i..ENTRY_SIZE * i + ENTRY_SIZE])
  {
    if |data| >= ENTRY_SIZE && i > 0 {
      var rest := data[ENTRY_SIZE..];
      SlotAt(rest, i - 1);
      if i < |Slots(data)| {
        SliceShift(data, ENTRY_SIZE * (i - 1));
      }
    }
  }

  function Overwritten(data: seq<Byte>, at: nat, b: seq<Byte>): (r: seq<Byte>)
    requires at + |b| <= |data|
    ensures |r| == |data|
  {
    data[..at] + b + data[at + |b|..]
  }

  /** Writing one slot changes that slot only. */
  lemma {:induction false} SlotWritten(data: seq<Byte>, i: nat, e: Entry)
    requires i < |Slots(data)| && WellFormed(e) && ENTRY_SIZE * i + ENTRY_SIZE <= |data|
    ensures Slots(Overwritten(data, ENTRY_SIZE * i, Encode(e))) == Slots(data)[i := e]
  {
    var data' := Overwritten(data, ENTRY_SIZE * i, Encode(e));
    if i == 0 {
      assert data'[..ENTRY_SIZE] == Encode(e) && data'[ENTRY_SIZE..] == data[ENTRY_SIZE..];
      DecodeEncode(e);
    } else {
      SlotWritten(data[ENTRY_SIZE..], i - 1, e);
      assert data'[..ENTRY_SIZE] == data[..ENTRY_SIZE];
      assert data'[ENTRY_SIZE..] == Overwritten(data[ENTRY_SIZE..], ENTRY_SIZE * (i - 1), Encode(e));
    }
  }

  // ---------- The operations on slots ----------

  /** The first slot in use under that name, or the number of slots. */
  function Find(slots: seq<Entry>, name: seq<Byte>): (i: nat)
    ensures i <= |slots| && (i < |slots| ==> slots[i].inUse && Name(slots[i]) == name)
  {
    if slots == [] || (slots[0].inUse && Name(slots[0]) == name) then 0 else 1 + Find(slots[1..], name)
  }

  /** The first slot not in use, or the number of slots. */
  function FirstFree(slots: seq<Entry>): (i: nat)
    ensures i <= |slots| && (i < |slots| ==> !slots[i].inUse)
  {
    if slots == [] || !slots[0].inUse then 0 else 1 + FirstFree(slots[1..])
  }

  predicate NameOk(name: seq<Byte>) {
    0 < |name| <= NAME_MAX && 0 !in name
  }

  ghost predicate AllWellFormed(slots: seq<Entry>) {
    forall i :: 0 <= i < |slots| ==> WellFormed(slots[i])
  }

  /** `dir_add` */
  function Add(slots: seq<Entry>, name: seq<Byte>, sector: nat): (r: (bool, seq<Entry>))
    requires AllWellFormed(slots) && 0 !in name && sector < SECTOR_RANGE
    ensures AllWellFormed(r.1) && |r.1| == |slots|
  {
    var i := FirstFree(slots);
    if !NameOk(name) || Find(slots, name) < |slots| || i == |slots| then (false, slots)
    else (true, slots[i := Entry(sector, Copied(slots[i].chars, name), true)])
  }

  /** `dir_remove`, when the inode of the file can be opened or not. */
  function Remove(slots: seq<Entry>, name: seq<Byte>, inodeOk: bool): (r: (bool, seq<Entry>))
    requires AllWellFormed(slots)
    ensures AllWellFormed(r.1) && |r.1| == |slots|
  {
    var i := Find(slots, name);
    if i == |slots| || !inodeOk then (false, slots) else (true, slots[i := slots[i].(inUse := false)])
  }

  // ---------- The map a directory stands for ----------

  /** No name is in use twice. */
  ghost predicate Unique(slots: seq<Entry>) {
    forall i, j :: 0 <= i < j < |slots| && slots[i].inUse && slots[j].inUse ==> Name(slots[i]) != Name(slots[j])
  }

  function AsMap(slots: seq<Entry>): map<seq<Byte>, nat> {
    if slots == [] then map[]
    else if slots[0].inUse then AsMap(slots[1..])[Name(slots[0]) := slots[0].sector]
    else AsMap(slots[1..])
  }

  function Used(slots: seq<Entry>): nat {
    if slots == [] then 0 else (if slots[0].inUse then 1 else 0) + Used(slots[1..])
  }

  lemma {:induction false} MapHas(slots: seq<Entry>, name: seq<Byte>)
    ensures name in AsMap(slots) <==> Find(slots, name) < |slots|
    ensures Find(slots, name) < |slots| ==> AsMap(slots)[name] == slots[Find(slots, name)].sector
  {
    if slots != [] {
      MapHas(slots[1..], name);
    }
  }

  lemma {:induction false} NotFound(slots: seq<Entry>, name: seq<Byte>, i: nat)
    requires i < |slots| && slots[i].inUse && Name(slots[i]) == name
    ensures Find(slots, name) <= i
  {
    if i > 0 && !(slots[0].inUse && Name(slots[0]) == name) {
      assert slots[1..][i - 1] == slots[i];
      NotFound(slots[1..], name, i - 1);
    }
  }

  lemma TailUnique(slots: seq<Entry>)
    requires slots != [] && Unique(slots)
    ensures Unique(slots[1..])
    ensures slots[0].inUse ==> Find(slots[1..], Name(slots[0])) == |slots| - 1
  {
    var rest := slots[1..];
    assert forall i :: 0 <= i < |rest| ==> rest[i] == slots[i + 1];
  }

  /**
   * There are as many names as slots in use, so the directory is full exactly when the map has as many keys as slots.
   */
  lemma {:induction false} MapSize(slots: seq<Entry>)
    requires Unique(slots)
    ensures |AsMap(slots)| == Used(slots) <= |slots|
    ensures FirstFree(slots) == |slots| <==> Used(slots) == |slots|
  {
    if slots != [] {
      TailUnique(slots);
      MapSize(slots[1..]);
      MapHas(slots[1..], Name(slots[0]));
    }
  }

  /** Putting a new name into a free slot adds it to the map. */
  lemma {:induction false} MapAfterAdd(slots: seq<Entry>, i: nat, e: Entry)
    requires i < |slots| && !slots[i].inUse && e.inUse && Find(slots, Name(e)) == |slots|
    ensures AsMap(slots[i := e]) == AsMap(slots)[Name(e) := e.sector]
  {
    var slots' := slots[i := e];
    if i == 0 {
      assert slots'[1..] == slots[1..];
    } else {
      assert slots'[1..] == slots[1..][i - 1 := e];
      MapAfterAdd(slots[1..], i - 1, e);
    }
  }

  /** Taking a slot out of use removes its name from the map. */
  lemma {:induction false} MapAfterRemove(slots: seq<Entry>, i: nat)
    requires i < |slots| && slots[i].inUse && Unique(slots)
    ensures AsMap(slots[i := slots[i].(inUse := false)]) == AsMap(slots) - {Name(slots[i])}
  {
    var e := slots[i].(inUse := false);
    TailUnique(slots);
    if i == 0 {
      assert slots[i := e][1..] == slots[1..];
      MapHas(slots[1..], Name(slots[0]));
    } else {
      assert slots[i := e][1..] == slots[1..][i - 1 := e];
      MapAfterRemove(slots[1..], i - 1);
    }
  }

  lemma AddKeepsUnique(slots: seq<Entry>, name: seq<Byte>, sector: nat)
    requires AllWellFormed(slots) && Unique(slots) && 0 !in name && sector < SECTOR_RANGE
    ensures Unique(Add(slots, name, sector).1)
  {
    var (ok, slots') := Add(slots, name, sector);
    if ok {
      var i := FirstFree(slots);
      CStringOf(name, slots[i].chars[|name| + 1..]);
      forall j | 0 <= j < |slots| && slots[j].inUse
        ensures Name(slots[j]) != name
      {
        if Name(slots[j]) == name {
          NotFound(slots, name, j);
        }
      }
    }
  }

  lemma RemoveKeepsUnique(slots: seq<Entry>, name: seq<Byte>, inodeOk: bool)
    requires AllWellFormed(slots) && Unique(slots)
    ensures Unique(Remove(slots, name, inodeOk).1)
  {
  }

  /** `dir_add` is insertion into a map of bounded size. */
  lemma AddIsInsert(slots: seq<Entry>, name: seq<Byte>, sector: nat)
    requires AllWellFormed(slots) && Unique(slots) && 0 !in name && sector < SECTOR_RANGE
    ensures var (ok, slots') := Add(slots, name, sector);
            && (ok <==> 0 < |name| <= 14 && name !in AsMap(slots) && |AsMap(slots)| < |slots|)
            && AsMap(slots') == if ok then AsMap(slots)[name := sector] else AsMap(slots)
  {
    MapHas(slots, name);
    MapSize(slots);
    var i := FirstFree(slots);
    if Add(slots, name, sector).0 {
      CStringOf(name, slots[i].chars[|name| + 1..]);
      MapAfterAdd(slots, i, Entry(sector, Copied(slots[i].chars, name), true));
    }
  }

  /** `dir_remove` is deletion. */
  lemma RemoveIsDelete(slots: seq<Entry>, name: seq<Byte>, inodeOk: bool)
    requires AllWellFormed(slots) && Unique(slots)
    ensures var (ok, slots') := Remove(slots, name, inodeOk);
            && (ok <==> name in AsMap(slots) && inodeOk)
            && AsMap(slots') == if ok then AsMap(slots) - {name} else AsMap(slots)
  {
    MapHas(slots, name);
    if Remove(slots, name, inodeOk).0 {
      MapAfterRemove(slots, Find(slots, name));
    }
  }

  // ---------- Runs ----------

  datatype Op = OpAdd(name: seq<Byte>, sector: nat) | OpRemove(name: seq<Byte>, inodeOk: bool)

  predicate OpOk(op: Op) {
    op.OpAdd? ==> 0 !in op.name && op.sector < SECTOR_RANGE
  }

  function Step(slots: seq<Entry>, op: Op): (r: seq<Entry>)
    requires AllWellFormed(slots) && OpOk(op)
    ensures AllWellFormed(r) && |r| == |slots|
  {
    match op
    case OpAdd(name, sector) => Add(slots, name, sector).1
    case OpRemove(name, inodeOk) => Remove(slots, name, inodeOk).1
  }

  function Run(slots: seq<Entry>, ops: seq<Op>): (r: seq<Entry>)
    requires AllWellFormed(slots) && forall i :: 0 <= i < |ops| ==> OpOk(ops[i])
    ensures AllWellFormed(r) && |r| == |slots|
    decreases |ops|
  {
    if ops == [] then slots else Run(Step(slots, ops[0]), ops[1..])
  }

  /** The same operations on a map that holds at most cap names. */
  function MapStep(m: map<seq<Byte>, nat>, cap: nat, op: Op): map<seq<Byte>, nat> {
    match op
    case OpAdd(name, sector) => if NameOk(name) && name !in m && |m| < cap then m[name := sector] else m
    case OpRemove(name, inodeOk) => if inodeOk then m - {name} else m
  }

  function MapRun(m: map<seq<Byte>, nat>, cap: nat, ops: seq<Op>): map<seq<Byte>, nat>
    decreases |ops|
  {
    if ops == [] then m else MapRun(MapStep(m, cap, ops[0]), cap, ops[1..])
  }

  /** Over every sequence of additions and removals names stay unique, and the directory is the map. */
  lemma {:induction false} RunIsMapRun(slots: seq<Entry>, ops: seq<Op>)
    requires AllWellFormed(slots) && Unique(slots) && forall i :: 0 <= i < |ops| ==> OpOk(ops[i])
    ensures Unique(Run(slots, ops)) && AsMap(Run(slots, ops)) == MapRun(AsMap(slots), |slots|, ops)
    decreases |ops|
  {
    if ops != [] {
      var slots' := Step(slots, ops[0]);
      StepIsMapStep(slots, ops[0]);
      RunIsMapRun(slots', ops[1..]);
    }
  }

  lemma StepIsMapStep(slots: seq<Entry>, op: Op)
    requires AllWellFormed(slots) && Unique(slots) && OpOk(op)
    ensures Unique(Step(slots, op)) && AsMap(Step(slots, op)) == MapStep(AsMap(slots), |slots|, op)
  {
    match op
    case OpAdd(name, sector) =>
      AddIsInsert(slots, name, sector);
      AddKeepsUnique(slots, name, sector);
    case OpRemove(name, inodeOk) =>
      RemoveIsDelete(slots, name, inodeOk);
      RemoveKeepsUnique(slots, name, inodeOk);
      if name !in AsMap(slots) {
        assert AsMap(slots) - {name} == AsMap(slots);
      }
  }

  // ---------- Listing ----------

  /** The names in use from slot i on. */
  function NamesFrom(slots: seq<Entry>, i: nat): seq<seq<Byte>>
    decreases |slots| - i
  {
    if i >= |slots| then [] else (if slots[i].inUse then [Name(slots[i])] else []) + NamesFrom(slots, i + 1)
  }

  lemma {:induction false} NamesAre(slots: seq<Entry>, i: nat)
    requires Unique(slots)
    ensures Distinct(NamesFrom(slots, i))
    ensures forall name :: name in NamesFrom(slots, i) <==>
            exists j :: i <= j < |slots| && slots[j].inUse && Name(slots[j]) == name
    decreases |slots| - i
  {
    if i < |slots| {
      NamesAre(slots, i + 1);
      if slots[i].inUse {
        ConsDistinct(Name(slots[i]), NamesFrom(slots, i + 1));
      } else {
        assert [] + NamesFrom(slots, i + 1) == NamesFrom(slots, i + 1);
      }
    }
  }

  /** The list of names has each key of the map exactly once. */
  lemma ListingIsKeys(slots: seq<Entry>)
    requires Unique(slots)
    ensures Distinct(NamesFrom(slots, 0)) && forall name :: name in NamesFrom(slots, 0) <==> name in AsMap(slots)
  {
    NamesAre(slots, 0);
    forall name
      ensures name in NamesFrom(slots, 0) <==> name in AsMap(slots)
    {
      MapHas(slots, name);
      if j :| 0 <= j < |slots| && slots[j].inUse && Name(slots[j]) == name {
        NotFound(slots, name, j);
      }
    }
  }

  // ---------- The operations on the file ----------

  /** A directory: the bytes of its file, and the position of `dir_readdir`. Reading and writing the file succeed. */
  class Dir {
    var data: seq<Byte>
    var pos: nat

    ghost predicate Valid()
      reads this
    {
      |data| % ENTRY_SIZE == 0 && Unique(Slots(data))
    }

    ghost function View(): seq<Entry>
      reads this
    {
      Slots(data)
    }

    /** `dir_create` and `dir_open`: a zeroed file. */
    constructor (entryCnt: nat)
      ensures Valid() && |View()| == entryCnt && AsMap(View()) == map[] && pos == 0
    {
      data := seq(entryCnt * ENTRY_SIZE, _ => 0);
      pos := 0;
      new;
      EmptySlots(data);
    }

    /** `inode_read_at` of one entry: nothing at the end of the file. */
    method ReadEntry(ofs: nat) returns (e: Option<Entry>)
      requires ofs % ENTRY_SIZE == 0
      ensures e == if ofs / ENTRY_SIZE < |View()| then Some(View()[ofs / ENTRY_SIZE]) else None
      ensures e.Some? ==> |e.value.chars| == NAME_SIZE
    {
      SlotAt(data, ofs / ENTRY_SIZE);
      e := if ofs + ENTRY_SIZE <= |data| then Some(Decode(data[ofs..ofs + ENTRY_SIZE])) else None;
    }

    /** `inode_write_at` of one entry: a file does not grow. */
    method WriteEntry(e: Entry, ofs: nat) returns (ok: bool)
      requires |data| % ENTRY_SIZE == 0 && ofs % ENTRY_SIZE == 0 && WellFormed(e)
      modifies this`data
      ensures |data| == old(|data|) && ok == (ofs / ENTRY_SIZE < |old(View())|)
      ensures View() == if ok then old(View())[ofs / ENTRY_SIZE := e] else old(View())
    {
      SlotAt(data, ofs / ENTRY_SIZE);
      ok := ofs + ENTRY_SIZE <= |data|;
      if ok {
        SlotWritten(data, ofs / ENTRY_SIZE, e);
        data := Overwritten(data, ofs, Encode(e));
      }
    }

    /** `lookup` */
    method Lookup(name: seq<Byte>) returns (found: Option<(Entry, nat)>)
      ensures found ==
                if Find(View(), name) == |View()| then None
                else Some((View()[Find(View(), name)], ENTRY_SIZE * Find(View(), name)))
    {
      var i := 0;
      var e := ReadEntry(0);
      while e.Some?
        invariant i <= |View()| && e == if i < |View()| then Some(View()[i]) else None
        invariant Find(View(), name) == i + Find(View()[i..], name)
        decreases |View()| - i
      {
        FromSlot(View(), i);
        if e.value.inUse && Name(e.value) == name {
          return Some((e.value, ENTRY_SIZE * i));
        }
        i := i + 1;
        e := ReadEntry(ENTRY_SIZE * i);
      }
      found := None;
    }

    /** The loop of `dir_add` that looks for a free slot; the end of the file when there is none. */
    method FreeSlot() returns (ofs: nat, chars: seq<Byte>)
      ensures ofs == ENTRY_SIZE * FirstFree(View()) && |chars| == NAME_SIZE
      ensures FirstFree(View()) < |View()| ==> chars == View()[FirstFree(View())].chars
    {
      var i := 0;
      chars := seq(NAME_SIZE, _ => 0);
      var e := ReadEntry(0);
      while e.Some?
        invariant i <= |View()| && e == if i < |View()| then Some(View()[i]) else None
        invariant FirstFree(View()) == i + FirstFree(View()[i..])
        invariant |chars| == NAME_SIZE && (e.Some? ==> |e.value.chars| == NAME_SIZE)
        decreases |View()| - i
      {
        FromSlot(View(), i);
        chars := e.value.chars;
        if !e.value.inUse {
          return ENTRY_SIZE * i, chars;
        }
        i := i + 1;
        e := ReadEntry(ENTRY_SIZE * i);
      }
      ofs := ENTRY_SIZE * i;
    }

    /** `dir_add` on the slots. */
    method AddSlot(name: seq<Byte>, sector: nat) returns (success: bool)
      requires |data| % ENTRY_SIZE == 0 && AllWellFormed(View()) && 0 !in name && sector < SECTOR_RANGE
      modifies this`data
      ensures |data| == |old(data)| && (success, View()) == Add(old(View()), name, sector)
    {
      if |name| == 0 || |name| > NAME_MAX {
        return false;
      }
      var found := Lookup(name);
      if found.Some? {
        return false;
      }
      var ofs, chars := FreeSlot();
      success := WriteEntry(Entry(sector, Copied(chars, name), true), ofs);
    }

    /** `dir_remove` on the slots. */
    method RemoveSlot(name: seq<Byte>, inodeOk: bool) returns (success: bool)
      requires |data| % ENTRY_SIZE == 0 && AllWellFormed(View())
      modifies this`data
      ensures |data| == |old(data)| && (success, View()) == Remove(old(View()), name, inodeOk)
    {
      var found := Lookup(name);
      if found.None? || !inodeOk {
        return false;
      }
      success := WriteEntry(found.value.0.(inUse := false), found.value.1);
    }

    /** Adding succeeds exactly for a new valid name while there is room, and then adds it to the map. */
    method DirAdd(name: seq<Byte>, sector: nat) returns (success: bool)
      requires Valid() && 0 !in name && sector < SECTOR_RANGE
      modifies this`data
      ensures Valid() && |View()| == |old(View())|
      ensures success <==> NameOk(name) && name !in AsMap(old(View())) && |AsMap(old(View()))| < |old(View())|
      ensures AsMap(View()) == if success then AsMap(old(View()))[name := sector] else AsMap(old(View()))
    {
      SlotsWellFormed(data);
      AddIsInsert(View(), name, sector);
      AddKeepsUnique(View(), name, sector);
      success := AddSlot(name, sector);
    }

    /**
     * Removing succeeds exactly for a name that is there, if its inode can be opened, and then takes it off the map.
     */
    method DirRemove(name: seq<Byte>, inodeOk: bool) returns (success: bool)
      requires Valid()
      modifies this`data
      ensures Valid() && |View()| == |old(View())|
      ensures success <==> name in AsMap(old(View())) && inodeOk
      ensures AsMap(View()) == if success then AsMap(old(View())) - {name} else AsMap(old(View()))
    {
      SlotsWellFormed(data);
      RemoveIsDelete(View(), name, inodeOk);
      RemoveKeepsUnique(View(), name, inodeOk);
      success := RemoveSlot(name, inodeOk);
    }

    /** `dir_readdir`: the next name in use, or nothing at the end. */
    method DirReadDir() returns (name: Option<seq<Byte>>)
      requires pos % ENTRY_SIZE == 0
      modifies this`pos
      ensures pos % ENTRY_SIZE == 0 && pos >= old(pos)
      ensures NamesFrom(View(), old(pos) / ENTRY_SIZE) ==
                if name.None? then [] else [name.value] + NamesFrom(View(), pos / ENTRY_SIZE)
    {
      var i := pos / ENTRY_SIZE;
      var e := ReadEntry(pos);
      while e.Some?
        invariant pos == ENTRY_SIZE * i && pos >= old(pos) && e == if i < |View()| then Some(View()[i]) else None
        invariant NamesFrom(View(), old(pos) / ENTRY_SIZE) == NamesFrom(View(), i)
        decreases |View()| - i
      {
        pos := pos + ENTRY_SIZE;
        i := i + 1;
        if e.value.inUse {
          return Some(Name(e.value));
        }
        assert [] + NamesFrom(View(), i) == NamesFrom(View(), i);
        e := ReadEntry(pos);
      }
      name := None;
    }

    /** Reading an unmodified directory from its start to its end. */
    method ListAll() returns (names: seq<seq<Byte>>)
      requires Valid() && pos == 0
      modifies this`pos
      ensures Distinct(names) && forall name :: name in names <==> name in AsMap(View())
    {
      names := [];
      var next := DirReadDir();
      ghost var left := NamesFrom(View(), 0);
      while next.Some?
        invariant pos % ENTRY_SIZE == 0 && NamesFrom(View(), 0) == names + left
        invariant left == if next.None? then [] else [next.value] + NamesFrom(View(), pos / ENTRY_SIZE)
        decreases |left|
      {
        Shifted(names, next.value, NamesFrom(View(), pos / ENTRY_SIZE));
        left := NamesFrom(View(), pos / ENTRY_SIZE);
        names := names + [next.value];
        next := DirReadDir();
      }
      assert names == NamesFrom(View(), 0);
      ListingIsKeys(View());
    }
  }

  lemma FromSlot(slots: seq<Entry>, i: nat)
    requires i < |slots|
    ensures slots[i..] != [] && slots[i..][0] == slots[i] && slots[i..][1..] == slots[i + 1..]
  {
  }

  lemma {:induction false} EmptySlots(data: seq<Byte>)
    requires |data| % ENTRY_SIZE == 0 && forall i :: 0 <= i < |data| ==> data[i] == 0
    ensures |Slots(data)| == |data| / ENTRY_SIZE && AsMap(Slots(data)) == map[] && Unique(Slots(data))
    ensures forall i :: 0 <= i < |Slots(data)| ==> !Slots(data)[i].inUse
    decreases |data|
  {
    if |data| >= ENTRY_SIZE {
      EmptySlots(data[ENTRY_SIZE..]);
    }
  }

  lemma {:induction false} SlotsWellFormed(data: seq<Byte>)
    ensures AllWellFormed(Slots(data))
    decreases |data|
  {
    if |data| >= ENTRY_SIZE {
      SlotsWellFormed(data[ENTRY_SIZE..]);
    }
  }
}
