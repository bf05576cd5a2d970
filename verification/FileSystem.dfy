/**
 * The file-system machine: create, open, write, remove and close over one free map, one disk and one root directory
 * (filesys/filesys.c, filesys/inode.c, filesys/free-map.c, filesys/directory.c).
 */
module FileSystem {
  import opened Common
  import opened Bitmaps
  import opened Inode
  import D = Directory

  const FREE_MAP_SECTOR: nat := 0
  const ROOT_DIR_SECTOR: nat := 1

  /** A disk sector holds an on-disk inode or file bytes. */
  datatype Block = Node(e: Extent) | Data(bytes: Sector)

  /** An in-memory inode, shared by all its openers. */
  datatype OpenInode = OpenInode(cnt: nat, removed: bool, data: Extent)

  /** `dir` is the root directory (name to inode sector); `open` the list of open inodes, keyed by their sector. */
  datatype State = State(freeMap: seq<bool>, disk: seq<Block>, dir: map<seq<Byte>, nat>, open: map<nat, OpenInode>)

  /**
   * What memory and disk allow during one operation: opening the root directory, writing the free map (twice), the
   * on-disk inode's buffer, a free directory slot, the in-memory inode, the file handle, erasing a directory entry.
   */
  datatype Luck = Luck(root: bool, map1: bool, map2: bool, calloc: bool, slot: bool, inode: bool, file: bool,
      erase: bool)

  // ---------- The operations as functions ----------

  /** `free_map_allocate`: first fit; taken back when the free map cannot be written. */
  function Allocate(m: seq<bool>, cnt: nat, writeOk: bool): (r: (Option<nat>, seq<bool>)) {
    var i := FirstRun(m, 0, cnt, false);
    if i.Some? && writeOk then (i, SetRange(m, i.value, cnt, true)) else (None, m)
  }

  function Zeroed(disk: seq<Block>, start: nat, n: nat): (r: seq<Block>)
    requires start + n <= |disk|
    ensures |r| == |disk|
  {
    seq(|disk|, k requires 0 <= k < |disk| => if start <= k < start + n then Data(ZeroSector()) else disk[k])
  }

  /** `inode_create`: the data sectors are allocated before the inode is written to its sector. */
  function InodeCreate(s: State, sector: nat, length: nat, calloc: bool, mapOk: bool): (r: (bool, State))
    requires |s.freeMap| == |s.disk| && sector < |s.disk|
  {
    var n := BytesToSectors(length);
    var a := Allocate(s.freeMap, n, mapOk);
    if !calloc || a.0.None? then (false, s)
    else (true, s.(freeMap := a.1, disk := Zeroed(s.disk[sector := Node(Extent(a.0.value, length))], a.0.value, n)))
  }

  /** `dir_add` succeeds for a new valid name when the directory has a slot for it. */
  predicate DirAdds(dir: map<seq<Byte>, nat>, name: seq<Byte>, slot: bool) {
    D.NameOk(name) && name !in dir && slot
  }

  function Released(m: seq<bool>, start: nat, n: nat): (r: seq<bool>)
    requires start + n <= |m|
  {
    SetRange(m, start, n, false)
  }

  /** `filesys_create`: on failure only the inode sector is given back. */
  function Create(s: State, name: seq<Byte>, length: nat, luck: Luck): (r: (bool, State))
    requires |s.freeMap| == |s.disk|
  {
    var a := Allocate(s.freeMap, 1, luck.map1);
    if !luck.root || a.0.None? then (false, s)
    else
      var x := a.0.value;
      var c := InodeCreate(s.(freeMap := a.1), x, length, luck.calloc, luck.map2);
      if c.0 && DirAdds(s.dir, name, luck.slot) then (true, c.1.(dir := s.dir[name := x]))
      else if x != 0 then (false, c.1.(freeMap := Released(c.1.freeMap, x, 1)))
      else (false, c.1)
  }

  /** `inode_open`: a second opener shares the first one's inode. */
  function InodeOpen(s: State, x: nat, inodeOk: bool): (r: (bool, State))
    requires x < |s.disk| && s.disk[x].Node?
  {
    if x in s.open then (true, s.(open := s.open[x := s.open[x].(cnt := s.open[x].cnt + 1)]))
    else if !inodeOk then (false, s)
    else (true, s.(open := s.open[x := OpenInode(1, false, s.disk[x].e)]))
  }

  /** `inode_close`: the last closer of a removed inode frees its sectors. */
  function InodeClose(s: State, x: nat): (r: State)
    requires |s.freeMap| == |s.disk| && x in s.open && s.open[x].cnt > 0
    requires x < |s.disk| && Within(s.disk, s.open[x].data)
  {
    var o := s.open[x];
    if o.cnt > 1 then s.(open := s.open[x := o.(cnt := o.cnt - 1)])
    else
      var s' := s.(open := s.open - {x});
      if o.removed then
        s'.(freeMap := Released(Released(s.freeMap, x, 1), o.data.start, BytesToSectors(o.data.length)))
      else s'
  }

  predicate Within(disk: seq<Block>, e: Extent) {
    e.start + BytesToSectors(e.length) <= |disk|
  }

  /** The directory and the open inodes lead to inodes on the disk. */
  ghost predicate Sound(s: State) {
    && |s.freeMap| == |s.disk|
    && (forall name :: name in s.dir ==>
        s.dir[name] < |s.disk| && s.disk[s.dir[name]].Node? && Within(s.disk, s.disk[s.dir[name]].e))
    && (forall x :: x in s.open ==> x < |s.disk| && s.open[x].cnt > 0 && Within(s.disk, s.open[x].data))
  }

  /** `filesys_open`: an inode whose file handle cannot be allocated is closed again. */
  function Open(s: State, name: seq<Byte>, luck: Luck): (r: (Option<nat>, State))
    requires Sound(s)
  {
    if !luck.root || name !in s.dir then (None, s)
    else
      var x := s.dir[name];
      var o := InodeOpen(s, x, luck.inode);
      if !o.0 then (None, s)
      else if luck.file then (Some(x), o.1)
      else (None, InodeClose(o.1, x))
  }

  /** Erasing a name and marking its inode removed. */
  function Erased(s: State, name: seq<Byte>): State
    requires name in s.dir && s.dir[name] in s.open
  {
    var x := s.dir[name];
    s.(dir := s.dir - {name}, open := s.open[x := s.open[x].(removed := true)])
  }

  /** `filesys_remove`: erases the name and leaves the sectors to the last close. */
  function Remove(s: State, name: seq<Byte>, luck: Luck): (r: (bool, State))
    requires Sound(s)
  {
    if !luck.root || name !in s.dir then (false, s)
    else
      var x := s.dir[name];
      var o := InodeOpen(s, x, luck.inode);
      if !o.0 then (false, s)
      else if !luck.erase then (false, InodeClose(o.1, x))
      else (true, InodeClose(Erased(o.1, name), x))
  }

  function Payload(b: Block): Sector {
    if b.Data? then b.bytes else ZeroSector()
  }

  function Raw(disk: seq<Block>): (r: seq<Sector>)
    ensures |r| == |disk|
  {
    seq(|disk|, k requires 0 <= k < |disk| => Payload(disk[k]))
  }

  /** A write through an open inode lays its bytes over the inode's own sectors. */
  function Write(s: State, x: nat, offset: nat, bs: seq<Byte>): (r: State)
    requires x in s.open && Within(s.disk, s.open[x].data)
    requires offset + |bs| <= s.open[x].data.length
  {
    var e := s.open[x].data;
    var raw := Spliced(Raw(s.disk), e, offset, bs);
    s.(disk := seq(|s.disk|, k requires 0 <= k < |s.disk| =>
         if e.start <= k < e.start + BytesToSectors(e.length) then Data(raw[k]) else s.disk[k]))
  }

  // ---------- Who owns which sectors ----------

  /** An inode on the disk owns its own sector and its data sectors. */
  predicate Owns(disk: seq<Block>, x: int, k: int) {
    && 0 <= x < |disk| && disk[x].Node?
    && (k == x || disk[x].e.start <= k < disk[x].e.start + BytesToSectors(disk[x].e.length))
  }

  /** The inodes that are still needed: the two system files, every named file and every open one. */
  predicate Live(s: State, x: int) {
    x == FREE_MAP_SECTOR || x == ROOT_DIR_SECTOR || x in s.dir.Values || x in s.open
  }

  /** x is an inode on the disk whose sectors are all marked used. */
  ghost predicate Held(s: State, x: int)
    requires |s.freeMap| == |s.disk|
  {
    && 0 <= x < |s.disk| && s.disk[x].Node? && Within(s.disk, s.disk[x].e)
    && !(s.disk[x].e.start <= x < s.disk[x].e.start + BytesToSectors(s.disk[x].e.length))
    && forall k :: Owns(s.disk, x, k) ==> s.freeMap[k]
  }

  ghost predicate AllHeld(s: State) {
    |s.freeMap| == |s.disk| && forall x :: Live(s, x) ==> Held(s, x)
  }

  /** No sector has two live owners. */
  ghost predicate Exclusive(s: State) {
    forall x, y, k :: Live(s, x) && Live(s, y) && Owns(s.disk, x, k) && Owns(s.disk, y, k) ==> x == y
  }

  /** Names are in one-to-one correspondence with user inodes. */
  ghost predicate NamesOk(s: State) {
    && (forall name :: name in s.dir ==> s.dir[name] > ROOT_DIR_SECTOR && D.NameOk(name))
    && (forall a, b :: a in s.dir && b in s.dir && s.dir[a] == s.dir[b] ==> a == b)
  }

  /** An open inode agrees with its sector, and is marked removed exactly when it has lost its name. */
  ghost predicate OpensOk(s: State) {
    forall x :: x in s.open ==>
      && x > ROOT_DIR_SECTOR && s.open[x].cnt > 0
      && x < |s.disk| && s.disk[x] == Node(s.open[x].data)
      && (s.open[x].removed <==> x !in s.dir.Values)
  }

  ghost predicate Inv(s: State) {
    AllHeld(s) && Exclusive(s) && NamesOk(s) && OpensOk(s)
  }

  lemma InvIsSound(s: State)
    requires Inv(s)
    ensures Sound(s)
  {
    forall name | name in s.dir
      ensures Held(s, s.dir[name])
    {
      assert Live(s, s.dir[name]);
    }
    forall x | x in s.open
      ensures Held(s, x)
    {
      assert Live(s, x);
    }
  }

  /** Claims stay sound while the live inodes keep their nodes and the marks on their sectors. */
  lemma ClaimsStay(s: State, s': State)
    requires AllHeld(s) && Exclusive(s) && |s'.freeMap| == |s'.disk| == |s.disk|
    requires forall x :: Live(s', x) ==> Live(s, x) && 0 <= x < |s.disk| && s'.disk[x] == s.disk[x]
    requires forall x, k :: Live(s', x) && Owns(s.disk, x, k) && 0 <= k < |s.disk| ==> s'.freeMap[k]
    ensures AllHeld(s') && Exclusive(s')
  {
    forall x | Live(s', x)
      ensures Held(s', x)
      ensures forall k :: Owns(s'.disk, x, k) ==> Owns(s.disk, x, k)
    {
      assert Held(s, x);
      forall k | Owns(s'.disk, x, k)
        ensures Owns(s.disk, x, k) && s'.freeMap[k]
      {
        assert Owns(s.disk, x, k);
      }
    }
  }

  /** A new inode on sectors that were free joins the live ones. */
  lemma ClaimsGrow(s: State, s': State, x: nat)
    requires AllHeld(s) && Exclusive(s) && |s'.freeMap| == |s'.disk| == |s.disk|
    requires forall y :: Live(s', y) <==> Live(s, y) || y == x
    requires Held(s', x)
    requires forall k :: Owns(s'.disk, x, k) && 0 <= k < |s.disk| ==> !s.freeMap[k]
    requires forall k :: 0 <= k < |s.disk| && s.freeMap[k] ==> s'.freeMap[k] && s'.disk[k] == s.disk[k]
    ensures AllHeld(s') && Exclusive(s')
  {
    forall y | Live(s, y)
      ensures Held(s', y) && 0 <= y < |s.disk| && s'.disk[y] == s.disk[y]
      ensures forall k :: Owns(s'.disk, y, k) ==> Owns(s.disk, y, k) && 0 <= k < |s.disk| && s.freeMap[k]
    {
      assert Held(s, y);
      assert Owns(s.disk, y, y);
      forall k | Owns(s'.disk, y, k)
        ensures Owns(s.disk, y, k) && 0 <= k < |s.disk| && s.freeMap[k]
      {
        assert Owns(s.disk, y, k);
      }
    }
  }

  // ---------- Every operation keeps the invariant ----------

  /** Sectors in use keep their marks and contents through `filesys_create`. */
  lemma CreateSpares(s: State, name: seq<Byte>, length: nat, luck: Luck)
    requires |s.freeMap| == |s.disk|
    ensures var (ok, s') := Create(s, name, length, luck);
            && |s'.freeMap| == |s'.disk| == |s.disk| && s'.open == s.open
            && (forall k :: 0 <= k < |s.disk| && s.freeMap[k] ==> s'.freeMap[k] && s'.disk[k] == s.disk[k])
            && (!ok ==> s'.dir == s.dir)
  {
    var a := Allocate(s.freeMap, 1, luck.map1);
    if luck.root && a.0.Some? {
      assert !s.freeMap[a.0.value];
    }
  }

  /** A successful one takes an inode and its data from sectors that were free. */
  lemma CreateTakes(s: State, name: seq<Byte>, length: nat, luck: Luck)
    requires |s.freeMap| == |s.disk| && Create(s, name, length, luck).0
    ensures var s' := Create(s, name, length, luck).1;
            && DirAdds(s.dir, name, luck.slot) && name in s'.dir
            && var x := s'.dir[name];
               && s'.dir == s.dir[name := x]
               && |s'.freeMap| == |s'.disk| && Held(s', x) && s'.disk[x].e.length == length
               && forall k :: Owns(s'.disk, x, k) && 0 <= k < |s.disk| ==> !s.freeMap[k]
  {
    var a := Allocate(s.freeMap, 1, luck.map1);
    var x := a.0.value;
    assert !s.freeMap[x] && a.1[x];
    var n := BytesToSectors(length);
    var b := Allocate(a.1, n, luck.map2);
    assert n > 0 ==> !(b.0.value <= x < b.0.value + n);
  }

  /** What `filesys_create` does to the disk and the free map. */
  lemma CreateEffect(s: State, name: seq<Byte>, length: nat, luck: Luck)
    requires |s.freeMap| == |s.disk|
    ensures var (ok, s') := Create(s, name, length, luck);
            && |s'.freeMap| == |s'.disk| == |s.disk| && s'.open == s.open
            && (forall k :: 0 <= k < |s.disk| && s.freeMap[k] ==> s'.freeMap[k] && s'.disk[k] == s.disk[k])
            && (!ok ==> s'.dir == s.dir)
            && (ok ==>
                  && DirAdds(s.dir, name, luck.slot) && name in s'.dir
                  && var x := s'.dir[name];
                     && s'.dir == s.dir[name := x]
                     && |s'.freeMap| == |s'.disk| && Held(s', x) && s'.disk[x].e.length == length
                     && forall k :: Owns(s'.disk, x, k) && 0 <= k < |s.disk| ==> !s.freeMap[k])
  {
    CreateSpares(s, name, length, luck);
    if Create(s, name, length, luck).0 {
      CreateTakes(s, name, length, luck);
    }
  }

  lemma NewName(dir: map<seq<Byte>, nat>, name: seq<Byte>, x: nat)
    requires name !in dir
    ensures dir[name := x].Values == dir.Values + {x}
  {
    var d := dir[name := x];
    assert d[name] == x;
    forall y | y in dir.Values
      ensures y in d.Values
    {
      var n :| n in dir && dir[n] == y;
      assert d[n] == y;
    }
  }

  lemma LostName(dir: map<seq<Byte>, nat>, name: seq<Byte>)
    requires name in dir && forall a, b :: a in dir && b in dir && dir[a] == dir[b] ==> a == b
    ensures (dir - {name}).Values == dir.Values - {dir[name]}
  {
    var d := dir - {name};
    forall y | y in dir.Values - {dir[name]}
      ensures y in d.Values
    {
      var n :| n in dir && dir[n] == y;
      assert d[n] == y;
    }
  }

  /** A live inode's own sector is marked used. */
  lemma LiveIsUsed(s: State, x: nat)
    requires AllHeld(s) && Live(s, x)
    ensures Held(s, x) && s.freeMap[x]
  {
    assert Held(s, x) && Owns(s.disk, x, x);
  }

  lemma CreateKeepsInv(s: State, name: seq<Byte>, length: nat, luck: Luck)
    requires Inv(s)
    ensures Inv(Create(s, name, length, luck).1)
  {
    var (ok, s') := Create(s, name, length, luck);
    CreateEffect(s, name, length, luck);
    forall x | Live(s, x)
      ensures Held(s, x) && s.freeMap[x]
    {
      LiveIsUsed(s, x);
    }
    if ok {
      var x := s'.dir[name];
      NewName(s.dir, name, x);
      assert Owns(s'.disk, x, x);
      ClaimsGrow(s, s', x);
    } else {
      ClaimsStay(s, s');
    }
  }

  lemma InodeOpenKeepsInv(s: State, x: nat, inodeOk: bool)
    requires Inv(s) && x in s.dir.Values
    ensures Held(s, x)
    ensures Inv(InodeOpen(s, x, inodeOk).1)
    ensures InodeOpen(s, x, inodeOk).0 ==> x in InodeOpen(s, x, inodeOk).1.open
  {
    assert Live(s, x) && Held(s, x);
    var s' := InodeOpen(s, x, inodeOk).1;
    MarksStay(s);
    ClaimsStay(s, s');
    assert exists name :: name in s.dir && s.dir[name] == x;
  }

  /** Live inodes are on the disk, and their sectors are marked. */
  lemma MarksStay(s: State)
    requires AllHeld(s)
    ensures forall x :: Live(s, x) ==> 0 <= x < |s.disk|
    ensures forall x, k :: Live(s, x) && Owns(s.disk, x, k) && 0 <= k < |s.disk| ==> s.freeMap[k]
  {
    forall x | Live(s, x)
      ensures Held(s, x)
    {
    }
  }

  /** The last close of a removed inode finds all its sectors marked used: `free_map_release` may assert it. */
  lemma ReleaseAsserted(s: State, x: nat)
    requires Inv(s) && x in s.open
    ensures Held(s, x) && s.disk[x] == Node(s.open[x].data) && Within(s.disk, s.open[x].data)
    ensures RunAt(s.freeMap, x, 1, true)
    ensures RunAt(Released(s.freeMap, x, 1), s.open[x].data.start, BytesToSectors(s.open[x].data.length), true)
  {
    assert Live(s, x) && Held(s, x) && Owns(s.disk, x, x);
    var e := s.open[x].data;
    forall k | e.start <= k < e.start + BytesToSectors(e.length)
      ensures Released(s.freeMap, x, 1)[k]
    {
      assert Owns(s.disk, x, k);
    }
  }

  /** Freeing an inode that is no longer live leaves the others' marks alone. */
  lemma ReleaseKeepsOthers(s: State, x: nat, s': State)
    requires Inv(s) && x in s.open
    requires Within(s.disk, s.open[x].data) && x < |s.disk|
    requires s'.disk == s.disk && !Live(s', x) && forall y :: Live(s', y) ==> Live(s, y)
    requires s'.freeMap ==
             Released(Released(s.freeMap, x, 1), s.open[x].data.start, BytesToSectors(s.open[x].data.length))
    ensures AllHeld(s') && Exclusive(s')
  {
    ReleaseAsserted(s, x);
    MarksStay(s);
    assert Live(s, x);
    forall y, k | Live(s', y) && Owns(s.disk, y, k) && 0 <= k < |s.disk|
      ensures s'.freeMap[k]
    {
      assert !Owns(s.disk, x, k);
    }
    ClaimsStay(s, s');
  }

  lemma InodeCloseKeepsInv(s: State, x: nat)
    requires Inv(s) && x in s.open
    ensures Held(s, x) && s.disk[x].e == s.open[x].data && s.open[x].cnt > 0
    ensures Inv(InodeClose(s, x))
  {
    ReleaseAsserted(s, x);
    var s' := InodeClose(s, x);
    MarksStay(s);
    if s.open[x].cnt == 1 && s.open[x].removed {
      ReleaseKeepsOthers(s, x, s');
    } else {
      ClaimsStay(s, s');
    }
  }

  lemma OpenKeepsInv(s: State, name: seq<Byte>, luck: Luck)
    requires Inv(s)
    ensures Sound(s) && Inv(Open(s, name, luck).1)
  {
    InvIsSound(s);
    if luck.root && name in s.dir {
      var x := s.dir[name];
      InodeOpenKeepsInv(s, x, luck.inode);
      var o := InodeOpen(s, x, luck.inode);
      if o.0 && !luck.file {
        InodeCloseKeepsInv(o.1, x);
      }
    }
  }

  lemma ErasedKeepsInv(s: State, name: seq<Byte>)
    requires Inv(s) && name in s.dir && s.dir[name] in s.open
    ensures Inv(Erased(s, name))
  {
    var s' := Erased(s, name);
    LostName(s.dir, name);
    MarksStay(s);
    forall x | Live(s', x)
      ensures Live(s, x) && 0 <= x < |s.disk| && s'.disk[x] == s.disk[x]
    {
      assert x in s'.dir.Values ==> x in s.dir.Values;
      assert x in s'.open ==> x in s.open;
      assert Live(s, x);
    }
    ClaimsStay(s, s');
  }

  lemma RemoveKeepsInv(s: State, name: seq<Byte>, luck: Luck)
    requires Inv(s)
    ensures Sound(s) && Inv(Remove(s, name, luck).1)
  {
    InvIsSound(s);
    if luck.root && name in s.dir {
      var x := s.dir[name];
      InodeOpenKeepsInv(s, x, luck.inode);
      var o := InodeOpen(s, x, luck.inode);
      if o.0 && !luck.erase {
        InodeCloseKeepsInv(o.1, x);
      } else if o.0 {
        ErasedKeepsInv(o.1, name);
        InodeCloseKeepsInv(Erased(o.1, name), x);
      }
    }
  }

  lemma WriteKeepsInv(s: State, x: nat, offset: nat, bs: seq<Byte>)
    requires Inv(s) && x in s.open && offset + |bs| <= s.open[x].data.length
    ensures Within(s.disk, s.open[x].data)
    ensures Inv(Write(s, x, offset, bs))
  {
    ReleaseAsserted(s, x);
    var s' := Write(s, x, offset, bs);
    MarksStay(s);
    forall y | Live(s', y)
      ensures Live(s, y) && 0 <= y < |s.disk| && s'.disk[y] == s.disk[y]
    {
      assert Live(s, y) && Held(s, y) && Owns(s.disk, y, y);
      if y != x {
        assert !Owns(s.disk, x, y);
      }
    }
    ClaimsStay(s, s');
  }

  // ---------- Runs ----------

  datatype Op =
    | OpCreate(name: seq<Byte>, length: nat, luck: Luck)
    | OpOpen(name: seq<Byte>, luck: Luck)
    | OpRemove(name: seq<Byte>, luck: Luck)
    | OpClose(x: nat)
    | OpWrite(x: nat, offset: nat, bs: seq<Byte>)

  /** A program closes and writes only what it has open, within the file's length. */
  predicate Enabled(s: State, op: Op) {
    match op
    case OpClose(x) => x in s.open
    case OpWrite(x, offset, bs) => x in s.open && offset + |bs| <= s.open[x].data.length
    case _ => true
  }

  function Step(s: State, op: Op): State
    requires Inv(s) && Enabled(s, op)
  {
    InvIsSound(s);
    match op
    case OpCreate(name, length, luck) => Create(s, name, length, luck).1
    case OpOpen(name, luck) => Open(s, name, luck).1
    case OpRemove(name, luck) => Remove(s, name, luck).1
    case OpClose(x) => InodeCloseKeepsInv(s, x); InodeClose(s, x)
    case OpWrite(x, offset, bs) => WriteKeepsInv(s, x, offset, bs); Write(s, x, offset, bs)
  }

  lemma StepKeepsInv(s: State, op: Op)
    requires Inv(s) && Enabled(s, op)
    ensures Inv(Step(s, op))
  {
    match op
    case OpCreate(name, length, luck) => CreateKeepsInv(s, name, length, luck);
    case OpOpen(name, luck) => OpenKeepsInv(s, name, luck);
    case OpRemove(name, luck) => RemoveKeepsInv(s, name, luck);
    case OpClose(x) => InodeCloseKeepsInv(s, x);
    case OpWrite(x, offset, bs) => WriteKeepsInv(s, x, offset, bs);
  }

  /** The bytes of the file whose inode is at x. */
  function FileBytes(disk: seq<Block>, x: nat): seq<Byte>
    requires x < |disk| && disk[x].Node? && Within(disk, disk[x].e)
  {
    Flat(Raw(disk), disk[x].e)
  }

  /** A step never changes the sectors of an inode that is live before it, unless it is a write to that inode. */
  lemma StepLeavesSectors(s: State, op: Op, x: nat, k: nat)
    requires Inv(s) && Enabled(s, op) && Live(s, x) && Owns(s.disk, x, k) && k < |s.disk|
    requires op.OpWrite? ==> op.x != x
    ensures |Step(s, op).disk| == |s.disk| && Step(s, op).disk[k] == s.disk[k]
  {
    MarksStay(s);
    match op
    case OpCreate(name, length, luck) => CreateEffect(s, name, length, luck);
    case OpOpen(name, luck) =>
    case OpRemove(name, luck) =>
    case OpClose(_) =>
    case OpWrite(y, offset, bs) =>
      assert Live(s, y);
      assert !Owns(s.disk, y, k);
  }

  /** No operation on other files changes a live file's inode or a single one of its bytes. */
  lemma StepKeepsContents(s: State, op: Op, x: nat)
    requires Inv(s) && Enabled(s, op) && Live(s, x)
    requires op.OpWrite? ==> op.x != x
    ensures Held(s, x) && x < |Step(s, op).disk| && Step(s, op).disk[x] == s.disk[x]
    ensures Within(Step(s, op).disk, s.disk[x].e) && FileBytes(Step(s, op).disk, x) == FileBytes(s.disk, x)
  {
    assert Held(s, x);
    assert Owns(s.disk, x, x);
    StepLeavesSectors(s, op, x, x);
    var e := s.disk[x].e;
    forall k | e.start <= k < e.start + BytesToSectors(e.length)
      ensures Raw(Step(s, op).disk)[k] == Raw(s.disk)[k]
    {
      StepLeavesSectors(s, op, x, k);
    }
    FlatLocal(Raw(s.disk), Raw(Step(s, op).disk), e);
  }

  /** A write changes its own file as the flat array says. */
  lemma WriteSplices(s: State, x: nat, offset: nat, bs: seq<Byte>)
    requires Inv(s) && x in s.open && offset + |bs| <= s.open[x].data.length
    ensures Held(s, x) && s.disk[x].e == s.open[x].data && Within(s.disk, s.disk[x].e)
    ensures var s' := Write(s, x, offset, bs);
            && s'.disk[x] == s.disk[x]
            && FileBytes(s'.disk, x) == FileBytes(s.disk, x)[..offset] + bs + FileBytes(s.disk, x)[offset + |bs|..]
  {
    ReleaseAsserted(s, x);
    var s' := Write(s, x, offset, bs);
    var e := s.open[x].data;
    SplicedFlat(Raw(s.disk), e, offset, bs);
    FlatLocal(Spliced(Raw(s.disk), e, offset, bs), Raw(s'.disk), e);
  }

  lemma CloseKeepsOtherOpen(s: State, y: nat, x: nat)
    requires Inv(s) && y in s.open && x in s.open && (y != x || s.open[x].cnt > 1)
    ensures Held(s, y) && s.disk[y].e == s.open[y].data && s.open[y].cnt > 0
    ensures x in InodeClose(s, y).open && InodeClose(s, y).open[x].data == s.open[x].data
  {
    InodeCloseKeepsInv(s, y);
  }

  /** An open file stays open, with its length, until its last opener closes it. */
  lemma StepKeepsOpen(s: State, op: Op, x: nat)
    requires Inv(s) && Enabled(s, op) && x in s.open
    ensures x in Step(s, op).open <==> !(op == OpClose(x) && s.open[x].cnt == 1)
    ensures x in Step(s, op).open ==> Step(s, op).open[x].data == s.open[x].data
  {
    match op
    case OpCreate(name, length, luck) => CreateEffect(s, name, length, luck);
    case OpClose(y) =>
      if y != x || s.open[x].cnt > 1 {
        CloseKeepsOtherOpen(s, y, x);
      } else {
        InodeCloseKeepsInv(s, x);
      }
    case OpWrite(_, _, _) =>
    case OpOpen(name, luck) =>
      if luck.root && name in s.dir {
        var y := s.dir[name];
        InodeOpenKeepsInv(s, y, luck.inode);
        var o := InodeOpen(s, y, luck.inode);
        if o.0 && !luck.file {
          CloseKeepsOtherOpen(o.1, y, x);
        }
      }
    case OpRemove(name, luck) =>
      if luck.root && name in s.dir {
        var y := s.dir[name];
        InodeOpenKeepsInv(s, y, luck.inode);
        var o := InodeOpen(s, y, luck.inode);
        if o.0 && luck.erase {
          ErasedKeepsInv(o.1, name);
          CloseKeepsOtherOpen(Erased(o.1, name), y, x);
        } else if o.0 {
          CloseKeepsOtherOpen(o.1, y, x);
        }
      }
  }

  /** A run of operations, each enabled when its turn comes. */
  ghost predicate Runs(s: State, ops: seq<Op>, s': State)
    requires Inv(s)
    decreases |ops|
  {
    if ops == [] then s' == s
    else
      Enabled(s, ops[0]) && (StepKeepsInv(s, ops[0]); Runs(Step(s, ops[0]), ops[1..], s'))
  }

  /** Over every run: live inodes hold disjoint sectors, all marked used, and open inodes are shared and counted. */
  lemma {:induction false} RunKeepsInv(s: State, ops: seq<Op>, s': State)
    requires Inv(s) && Runs(s, ops, s')
    ensures Inv(s')
    decreases |ops|
  {
    if ops != [] {
      StepKeepsInv(s, ops[0]);
      RunKeepsInv(Step(s, ops[0]), ops[1..], s');
    }
  }

  /** x is in use in every state of the run: it has a name, or is open. */
  ghost predicate StaysLive(s: State, ops: seq<Op>, x: nat)
    requires Inv(s)
    decreases |ops|
  {
    Live(s, x) &&
    (ops == [] || !Enabled(s, ops[0]) || (StepKeepsInv(s, ops[0]); StaysLive(Step(s, ops[0]), ops[1..], x)))
  }

  /** x is open in every state of the run, however often it is opened and closed on the way. */
  ghost predicate StaysOpen(s: State, ops: seq<Op>, x: nat)
    requires Inv(s)
    decreases |ops|
  {
    x in s.open &&
    (ops == [] || !Enabled(s, ops[0]) || (StepKeepsInv(s, ops[0]); StaysOpen(Step(s, ops[0]), ops[1..], x)))
  }

  lemma {:induction false} OpenIsLive(s: State, ops: seq<Op>, s': State, x: nat)
    requires Inv(s) && Runs(s, ops, s') && StaysOpen(s, ops, x)
    ensures StaysLive(s, ops, x) && x in s'.open
    decreases |ops|
  {
    if ops != [] {
      StepKeepsInv(s, ops[0]);
      OpenIsLive(Step(s, ops[0]), ops[1..], s', x);
    }
  }

  /** The bytes of a file after the writes to x in a run. */
  function Written(bytes: seq<Byte>, ops: seq<Op>, x: nat): seq<Byte>
    decreases |ops|
  {
    if ops == [] then bytes
    else
      match ops[0]
      case OpWrite(y, offset, bs) =>
        if y == x && offset + |bs| <= |bytes|
        then Written(bytes[..offset] + bs + bytes[offset + |bs|..], ops[1..], x)
        else Written(bytes, ops[1..], x)
      case _ => Written(bytes, ops[1..], x)
  }

  /** One step leaves a file in use its inode, and its bytes apart from what the step writes to it. */
  lemma StepWrites(s: State, op: Op, x: nat)
    requires Inv(s) && Enabled(s, op) && Live(s, x)
    ensures Held(s, x) && x < |Step(s, op).disk| && Step(s, op).disk[x] == s.disk[x]
    ensures Within(Step(s, op).disk, s.disk[x].e)
    ensures FileBytes(Step(s, op).disk, x) == Written(FileBytes(s.disk, x), [op], x)
  {
    assert Live(s, x) && Held(s, x);
    if op.OpWrite? && op.x == x {
      WriteSplices(s, x, op.offset, op.bs);
      FileLength(s, x);
    } else {
      StepKeepsContents(s, op, x);
    }
  }

  lemma FileLength(s: State, x: nat)
    requires Inv(s) && x in s.open
    ensures Held(s, x) && Within(s.disk, s.disk[x].e) && |FileBytes(s.disk, x)| == s.open[x].data.length
  {
    ReleaseAsserted(s, x);
  }

  lemma WrittenStep(bytes: seq<Byte>, ops: seq<Op>, x: nat)
    requires ops != []
    ensures Written(bytes, ops, x) == Written(Written(bytes, [ops[0]], x), ops[1..], x)
  {
  }

  /**
   * Safety over every run. The invariant holds at the end: live inodes hold disjoint sectors, all marked used. And a
   * file in use throughout keeps its sectors and its bytes, apart from what is written to it, even when other openers
   * close it, its name is removed while it is open, and others are created.
   */
  lemma {:induction false} RunKeepsFile(s: State, ops: seq<Op>, s': State, x: nat)
    requires Inv(s) && Runs(s, ops, s') && StaysLive(s, ops, x)
    ensures Inv(s') && Live(s', x)
    ensures Held(s, x) && x < |s'.disk| && s'.disk[x] == s.disk[x]
    ensures Within(s'.disk, s.disk[x].e) && FileBytes(s'.disk, x) == Written(FileBytes(s.disk, x), ops, x)
    decreases |ops|
  {
    assert Live(s, x) && Held(s, x);
    if ops != [] {
      var t := Step(s, ops[0]);
      StepKeepsInv(s, ops[0]);
      StepWrites(s, ops[0], x);
      WrittenStep(FileBytes(s.disk, x), ops, x);
      RunKeepsFile(t, ops[1..], s', x);
    }
  }

  /** The case of a file that is open throughout. */
  lemma RunSafe(s: State, ops: seq<Op>, s': State, x: nat)
    requires Inv(s) && Runs(s, ops, s') && StaysOpen(s, ops, x)
    ensures Inv(s')
    ensures Held(s, x) && x in s'.open && x < |s'.disk| && s'.disk[x] == s.disk[x]
    ensures Within(s'.disk, s.disk[x].e) && FileBytes(s'.disk, x) == Written(FileBytes(s.disk, x), ops, x)
  {
    OpenIsLive(s, ops, s', x);
    RunKeepsFile(s, ops, s', x);
  }

  // ---------- A new file system ----------

  const ROOT_DIR_LENGTH: nat := 16 * 20

  /** `free_map_init` on an empty disk: the sectors of the two system inodes are marked. */
  function Blank(sectors: nat): State
    requires sectors >= 2
  {
    State(seq(sectors, k => k < 2), seq(sectors, _ => Data(ZeroSector())), map[], map[])
  }

  /** `do_format` with a free-map file of that length; the source gives up when a step fails. */
  function Format(sectors: nat, mapLength: nat): (r: (bool, State))
    requires sectors >= 2
  {
    var m := InodeCreate(Blank(sectors), FREE_MAP_SECTOR, mapLength, true, true);
    var d := InodeCreate(m.1, ROOT_DIR_SECTOR, ROOT_DIR_LENGTH, true, true);
    (m.0 && d.0, d.1)
  }

  /** The two system inodes hold what they were given. */
  lemma FormatEffect(sectors: nat, mapLength: nat) returns (m: seq<bool>, e: Extent, f: Extent)
    requires sectors >= 2 && Format(sectors, mapLength).0
    ensures var s := Format(sectors, mapLength).1;
            && |m| == |s.freeMap| == |s.disk| == sectors && s.dir == map[] && s.open == map[]
            && s.disk[0] == Node(e) && s.disk[1] == Node(f) && Within(s.disk, e) && Within(s.disk, f)
            && m[0] && m[1] && (forall k :: 0 <= k < sectors && m[k] ==> s.freeMap[k])
            && (forall k :: e.start <= k < e.start + BytesToSectors(e.length) ==> k > 1 && m[k])
            && (forall k :: f.start <= k < f.start + BytesToSectors(f.length) ==> k > 1 && !m[k] && s.freeMap[k])
  {
    var b := Blank(sectors);
    var t := InodeCreate(b, FREE_MAP_SECTOR, mapLength, true, true).1;
    var s := Format(sectors, mapLength).1;
    m := t.freeMap;
    assert b.freeMap[0] && b.freeMap[1];
    assert m[0] && m[1];
    e, f := t.disk[0].e, s.disk[1].e;
  }

  /** The invariant holds from the start. */
  lemma FormatOk(sectors: nat, mapLength: nat)
    requires sectors >= 2 && Format(sectors, mapLength).0
    ensures Inv(Format(sectors, mapLength).1)
  {
    var s := Format(sectors, mapLength).1;
    var m, e, f := FormatEffect(sectors, mapLength);
    assert forall x :: Live(s, x) <==> x == 0 || x == 1;
    assert Held(s, 0) && Held(s, 1);
    forall x, y, k | Live(s, x) && Live(s, y) && Owns(s.disk, x, k) && Owns(s.disk, y, k)
      ensures x == y
    {
      assert Owns(s.disk, 0, k) ==> m[k] && k != 1;
      assert Owns(s.disk, 1, k) ==> k == 1 || (k > 1 && !m[k]);
    }
  }

  // ---------- Sectors that nobody can free any more ----------

  /** Marked used, but owned by no live inode. */
  ghost predicate Leaked(s: State, k: int) {
    0 <= k < |s.freeMap| && s.freeMap[k] && forall x :: Live(s, x) ==> !Owns(s.disk, x, k)
  }

  /** The branch of `filesys_create` in which the inode exists but the directory entry does not. */
  predicate Unlisted(s: State, name: seq<Byte>, length: nat, luck: Luck)
    requires |s.freeMap| == |s.disk|
  {
    var a := Allocate(s.freeMap, 1, luck.map1);
    luck.root && a.0.Some? && InodeCreate(s.(freeMap := a.1), a.0.value, length, luck.calloc, luck.map2).0 &&
        !DirAdds(s.dir, name, luck.slot)
  }

  /** The data sectors that `inode_create` takes in that call. */
  predicate TakenAsData(s: State, length: nat, luck: Luck, k: int)
    requires |s.freeMap| == |s.disk|
  {
    var a := Allocate(s.freeMap, 1, luck.map1);
    var b := Allocate(a.1, BytesToSectors(length), luck.map2);
    b.0.Some? && b.0.value <= k < b.0.value + BytesToSectors(length)
  }

  /** In a failed create, only the data sectors of an unlisted inode stay marked. */
  lemma FailedCreateMarks(s: State, name: seq<Byte>, length: nat, luck: Luck, k: nat)
    requires Inv(s) && k < |s.freeMap| && !Create(s, name, length, luck).0
    ensures Create(s, name, length, luck).1.freeMap[k] <==>
              s.freeMap[k] || (Unlisted(s, name, length, luck) && TakenAsData(s, length, luck, k))
    ensures Unlisted(s, name, length, luck) && TakenAsData(s, length, luck, k) ==> !s.freeMap[k]
  {
    var a := Allocate(s.freeMap, 1, luck.map1);
    LiveIsUsed(s, FREE_MAP_SECTOR);
    if luck.root && a.0.Some? {
      var x := a.0.value;
      assert !s.freeMap[x] && x != 0;
    }
  }

  /** A create that fails leaks exactly those sectors. */
  lemma FailedCreateLeaks(s: State, name: seq<Byte>, length: nat, luck: Luck, k: nat)
    requires Inv(s) && k < |s.freeMap| && !Create(s, name, length, luck).0
    ensures Leaked(Create(s, name, length, luck).1, k) <==>
              Leaked(s, k) || (Unlisted(s, name, length, luck) && TakenAsData(s, length, luck, k))
  {
    var s' := Create(s, name, length, luck).1;
    CreateEffect(s, name, length, luck);
    FailedCreateMarks(s, name, length, luck, k);
    forall x | Live(s, x)
      ensures Owns(s'.disk, x, k) <==> Owns(s.disk, x, k)
      ensures Owns(s.disk, x, k) ==> s.freeMap[k]
    {
      LiveIsUsed(s, x);
    }
    assert forall x :: Live(s', x) <==> Live(s, x);
  }

  lemma CreatedMarks(s: State, name: seq<Byte>, length: nat, luck: Luck, k: nat)
    requires Inv(s) && k < |s.freeMap| && Create(s, name, length, luck).0
    ensures name in Create(s, name, length, luck).1.dir
    ensures Create(s, name, length, luck).1.freeMap[k] <==>
              s.freeMap[k] || Owns(Create(s, name, length, luck).1.disk, Create(s, name, length, luck).1.dir[name], k)
  {
    CreateEffect(s, name, length, luck);
    var s' := Create(s, name, length, luck).1;
    var a := Allocate(s.freeMap, 1, luck.map1);
    var b := Allocate(a.1, BytesToSectors(length), luck.map2);
    assert s'.dir[name] == a.0.value;
    assert Held(s', a.0.value) && s'.disk[a.0.value] == Node(Extent(b.0.value, length));
  }

  /** A create that succeeds leaks nothing. */
  lemma CreatedLeaksNothing(s: State, name: seq<Byte>, length: nat, luck: Luck, k: nat)
    requires Inv(s) && k < |s.freeMap| && Create(s, name, length, luck).0
    ensures Leaked(Create(s, name, length, luck).1, k) <==> Leaked(s, k)
  {
    var s' := Create(s, name, length, luck).1;
    CreateEffect(s, name, length, luck);
    CreatedMarks(s, name, length, luck, k);
    var x := s'.dir[name];
    NewName(s.dir, name, x);
    forall y | Live(s, y)
      ensures Owns(s'.disk, y, k) <==> Owns(s.disk, y, k)
      ensures Owns(s.disk, y, k) ==> s.freeMap[k]
    {
      LiveIsUsed(s, y);
    }
    assert forall y :: Live(s', y) <==> Live(s, y) || y == x;
    assert Owns(s'.disk, x, k) ==> !s.freeMap[k];
  }

  /** One create call loses sectors exactly when it makes a nonempty file's inode and then cannot list it. */
  lemma CreateLeaksIff(s: State, name: seq<Byte>, length: nat, luck: Luck)
    requires Inv(s)
    ensures (exists k :: Leaked(Create(s, name, length, luck).1, k) && !Leaked(s, k)) <==>
              Unlisted(s, name, length, luck) && length > 0
  {
    var s' := Create(s, name, length, luck).1;
    CreateEffect(s, name, length, luck);
    forall k | 0 <= k < |s.freeMap|
      ensures Leaked(s', k) && !Leaked(s, k) <==>
              !Leaked(s, k) && Unlisted(s, name, length, luck) && TakenAsData(s, length, luck, k)
    {
      if Create(s, name, length, luck).0 {
        CreatedLeaksNothing(s, name, length, luck, k);
      } else {
        FailedCreateLeaks(s, name, length, luck, k);
      }
    }
    if Unlisted(s, name, length, luck) && length > 0 {
      var a := Allocate(s.freeMap, 1, luck.map1);
      var b := Allocate(a.1, BytesToSectors(length), luck.map2);
      assert TakenAsData(s, length, luck, b.0.value);
      FailedCreateMarks(s, name, length, luck, b.0.value);
      assert Leaked(s', b.0.value);
    }
  }

  const AllWell: Luck := Luck(true, true, true, true, true, true, true, true)

  /** With all sectors before i in use and i free, i is what one sector's allocation gives. */
  lemma NextFree(m: seq<bool>, i: nat)
    requires i < |m| && !m[i] && forall k :: 0 <= k < i ==> m[k]
    ensures Allocate(m, 1, true) == (Some(i), m[i := true])
  {
    var r := FirstRun(m, 0, 1, false);
    assert RunAt(m, i, 1, false);
    assert r.Some? && RunAt(m, r.value, 1, false);
    assert !m[r.value];
    assert SetRange(m, i, 1, true) == m[i := true];
  }

  /** Making the inode of a file of one sector takes the next free sector. */
  lemma OneSectorFile(s: State, sector: nat, length: nat, i: nat)
    requires |s.freeMap| == |s.disk| && sector < |s.disk| && BytesToSectors(length) == 1
    requires i < |s.freeMap| && !s.freeMap[i] && forall k :: 0 <= k < i ==> s.freeMap[k]
    ensures var r := InodeCreate(s, sector, length, true, true);
            r.0 && r.1.freeMap == s.freeMap[i := true] && |r.1.disk| == |s.disk|
  {
    NextFree(s.freeMap, i);
  }

  /** A small new disk: two system inodes, a sector for each of their files, and two sectors left. */
  lemma SmallDisk() returns (s: State)
    ensures Format(6, 4) == (true, s) && Inv(s) && s.freeMap == [true, true, true, true, false, false]
  {
    var b := Blank(6);
    assert b.freeMap == [true, true, false, false, false, false];
    OneSectorFile(b, FREE_MAP_SECTOR, 4, 2);
    var m := InodeCreate(b, FREE_MAP_SECTOR, 4, true, true).1;
    OneSectorFile(m, ROOT_DIR_SECTOR, ROOT_DIR_LENGTH, 3);
    s := InodeCreate(m, ROOT_DIR_SECTOR, ROOT_DIR_LENGTH, true, true).1;
    assert Format(6, 4) == (true, s);
    FormatOk(6, 4);
  }

  lemma UnlistedExample(s: State, name: seq<Byte>)
    requires Inv(s) && s.freeMap == [true, true, true, true, false, false] && |name| == 15
    ensures Unlisted(s, name, SECTOR_SIZE, AllWell) && TakenAsData(s, SECTOR_SIZE, AllWell, 5)
    ensures !Create(s, name, SECTOR_SIZE, AllWell).0
  {
    NextFree(s.freeMap, 4);
    NextFree(s.freeMap[4 := true], 5);
  }

  /** On that disk a file of one sector under a name of 15 bytes is not created, and loses the last sector. */
  lemma LeakExample(name: seq<Byte>)
    requires |name| == 15
    ensures Format(6, 4).0 && Inv(Format(6, 4).1) && !Create(Format(6, 4).1, name, SECTOR_SIZE, AllWell).0
    ensures !Leaked(Format(6, 4).1, 5) && Leaked(Create(Format(6, 4).1, name, SECTOR_SIZE, AllWell).1, 5)
  {
    var s := SmallDisk();
    UnlistedExample(s, name);
    FailedCreateLeaks(s, name, SECTOR_SIZE, AllWell, 5);
  }

  /** Dropping at most one live inode together with its marks leaks nothing and recovers nothing. */
  lemma LeaksStay(s: State, s': State, gone: int)
    requires Inv(s) && |s'.freeMap| == |s'.disk| == |s.disk|
    requires forall y :: Live(s', y) <==> Live(s, y) && y != gone
    requires forall y, k :: Live(s, y) ==> (Owns(s'.disk, y, k) <==> Owns(s.disk, y, k))
    requires forall k :: 0 <= k < |s.freeMap| ==>
             (s'.freeMap[k] <==> s.freeMap[k] && !(Live(s, gone) && Owns(s.disk, gone, k)))
    ensures forall k :: Leaked(s', k) <==> Leaked(s, k)
  {
    forall k | 0 <= k < |s.freeMap|
      ensures Leaked(s', k) <==> Leaked(s, k)
    {
      if Leaked(s', k) {
        forall y | Live(s, y)
          ensures !Owns(s.disk, y, k)
        {
          assert y != gone ==> Live(s', y);
        }
      }
    }
  }

  lemma OpenLeaksNothing(s: State, x: nat, inodeOk: bool)
    requires Inv(s) && x in s.dir.Values
    ensures Held(s, x) && Inv(InodeOpen(s, x, inodeOk).1)
    ensures forall k :: Leaked(InodeOpen(s, x, inodeOk).1, k) <==> Leaked(s, k)
  {
    InodeOpenKeepsInv(s, x, inodeOk);
    LeaksStay(s, InodeOpen(s, x, inodeOk).1, -1);
  }

  lemma CloseLeaksNothing(s: State, x: nat)
    requires Inv(s) && x in s.open
    ensures Held(s, x) && s.disk[x].e == s.open[x].data && s.open[x].cnt > 0
    ensures forall k :: Leaked(InodeClose(s, x), k) <==> Leaked(s, k)
  {
    InodeCloseKeepsInv(s, x);
    LeaksStay(s, InodeClose(s, x), if s.open[x].cnt == 1 && s.open[x].removed then x else -1);
  }

  lemma EraseLeaksNothing(s: State, name: seq<Byte>)
    requires Inv(s) && name in s.dir && s.dir[name] in s.open
    ensures forall k :: Leaked(Erased(s, name), k) <==> Leaked(s, k)
  {
    LostName(s.dir, name);
    LeaksStay(s, Erased(s, name), -1);
  }

  lemma WriteLeaksNothing(s: State, x: nat, offset: nat, bs: seq<Byte>)
    requires Inv(s) && x in s.open && offset + |bs| <= s.open[x].data.length
    ensures Within(s.disk, s.open[x].data)
    ensures forall k :: Leaked(Write(s, x, offset, bs), k) <==> Leaked(s, k)
  {
    ReleaseAsserted(s, x);
    var s' := Write(s, x, offset, bs);
    assert Live(s, x);
    forall y | Live(s, y)
      ensures 0 <= y < |s.disk| && s'.disk[y] == s.disk[y]
    {
      LiveIsUsed(s, y);
      assert Owns(s.disk, y, y);
      assert y != x ==> !Owns(s.disk, x, y);
    }
    LeaksStay(s, s', -1);
  }

  /** Only an unlisted create leaks; no other operation loses a sector, and no operation ever recovers one. */
  lemma StepLeaks(s: State, op: Op)
    requires Inv(s) && Enabled(s, op)
    ensures forall k :: Leaked(s, k) ==> Leaked(Step(s, op), k)
    ensures (exists k :: Leaked(Step(s, op), k) && !Leaked(s, k)) <==>
              op.OpCreate? && Unlisted(s, op.name, op.length, op.luck) && op.length > 0
  {
    match op
    case OpCreate(name, length, luck) =>
      CreateLeaksIff(s, name, length, luck);
      forall k | Leaked(s, k)
        ensures Leaked(Step(s, op), k)
      {
        if Create(s, name, length, luck).0 {
          CreatedLeaksNothing(s, name, length, luck, k);
        } else {
          FailedCreateLeaks(s, name, length, luck, k);
        }
      }
    case OpClose(x) => CloseLeaksNothing(s, x);
    case OpWrite(x, offset, bs) => WriteLeaksNothing(s, x, offset, bs);
    case OpOpen(name, luck) =>
      if luck.root && name in s.dir {
        var x := s.dir[name];
        OpenLeaksNothing(s, x, luck.inode);
        var o := InodeOpen(s, x, luck.inode);
        if o.0 && !luck.file {
          CloseLeaksNothing(o.1, x);
        }
      }
    case OpRemove(name, luck) =>
      if luck.root && name in s.dir {
        var x := s.dir[name];
        OpenLeaksNothing(s, x, luck.inode);
        var o := InodeOpen(s, x, luck.inode);
        if o.0 && luck.erase {
          EraseLeaksNothing(o.1, name);
          ErasedKeepsInv(o.1, name);
          CloseLeaksNothing(Erased(o.1, name), x);
        } else if o.0 {
          CloseLeaksNothing(o.1, x);
        }
      }
  }
}
