/**
 * The file-system operations as they run (filesys/filesys.c, filesys/inode.c, filesys/free-map.c), over a free map, a
 * disk, the root directory and the list of open inodes that they change in place.
 */
module Volume {
  import opened Common
  import opened Bitmaps
  import opened Inode
  import F = FileSystem

  class Volume {
    const freeMap: Bitmap
    const disk: array<F.Block>
    var dir: map<seq<Byte>, nat>
    var open: map<nat, F.OpenInode>

    ghost function View(): F.State
      reads this, freeMap, disk
    {
      F.State(freeMap.bits, disk[..], dir, open)
    }

    /** `free_map_init` on an empty disk */
    constructor (sectors: nat)
      requires sectors >= 2
      ensures View() == F.Blank(sectors) && fresh(freeMap) && fresh(disk)
    {
      freeMap := new Bitmap(sectors);
      disk := new F.Block[sectors](_ => F.Data(ZeroSector()));
      dir, open := map[], map[];
      new;
      freeMap.SetMultiple(F.FREE_MAP_SECTOR, 1, true);
      freeMap.SetMultiple(F.ROOT_DIR_SECTOR, 1, true);
    }

    /** `do_format` */
    method Format(mapLength: nat) returns (ok: bool)
      requires disk.Length >= 2 && View() == F.Blank(disk.Length)
      modifies freeMap, disk
      ensures (ok, View()) == F.Format(disk.Length, mapLength) && (ok ==> F.Inv(View()))
    {
      ok := InodeCreate(F.FREE_MAP_SECTOR, mapLength, true, true);
      var rootOk := InodeCreate(F.ROOT_DIR_SECTOR, F.ROOT_DIR_LENGTH, true, true);
      ok := ok && rootOk;
      if ok {
        F.FormatOk(disk.Length, mapLength);
      }
    }

    /** `free_map_allocate`; the scan is undone when the map cannot be written. */
    method FreeMapAllocate(cnt: nat, writeOk: bool) returns (sector: Option<nat>)
      modifies freeMap
      ensures (sector, freeMap.bits) == F.Allocate(old(freeMap.bits), cnt, writeOk)
    {
      ghost var m := freeMap.bits;
      sector := freeMap.ScanAndFlip(0, cnt, false);
      if sector.Some? && !writeOk {
        FlipAndBack(m, sector.value, cnt, false);
        freeMap.SetMultiple(sector.value, cnt, false);
        sector := None;
      }
    }

    /** `free_map_release`; the source asserts that all the sectors are marked. */
    method FreeMapRelease(sector: nat, cnt: nat)
      requires RunAt(freeMap.bits, sector, cnt, true)
      modifies freeMap
      ensures freeMap.bits == F.Released(old(freeMap.bits), sector, cnt)
    {
      var all := freeMap.All(sector, cnt);
      assert all;
      freeMap.SetMultiple(sector, cnt, false);
    }

    method DiskWrite(sector: nat, b: F.Block)
      requires sector < disk.Length
      modifies disk
      ensures disk[..] == old(disk[..])[sector := b]
    {
      disk[sector] := b;
    }

    /** Writing zeros to n sectors. */
    method ZeroSectors(start: nat, n: nat)
      requires start + n <= disk.Length
      modifies disk
      ensures disk[..] == F.Zeroed(old(disk[..]), start, n)
    {
      var i := 0;
      while i < n
        invariant i <= n && disk[..] == F.Zeroed(old(disk[..]), start, i)
      {
        DiskWrite(start + i, F.Data(ZeroSector()));
        i := i + 1;
      }
    }

    method InodeCreate(sector: nat, length: nat, calloc: bool, mapOk: bool) returns (success: bool)
      requires |freeMap.bits| == disk.Length && sector < disk.Length
      modifies freeMap, disk
      ensures (success, View()) == F.InodeCreate(old(View()), sector, length, calloc, mapOk)
    {
      success := false;
      if calloc {
        var sectors := BytesToSectors(length);
        var start := FreeMapAllocate(sectors, mapOk);
        if start.Some? {
          DiskWrite(sector, F.Node(Extent(start.value, length)));
          ZeroSectors(start.value, sectors);
          success := true;
        }
      }
    }

    /** `inode_open`; a second opener gets the inode that is there. */
    method InodeOpen(sector: nat, malloc: bool) returns (ok: bool)
      requires sector < disk.Length && disk[sector].Node?
      modifies this`open
      ensures (ok, View()) == F.InodeOpen(old(View()), sector, malloc)
    {
      if sector in open {
        open := open[sector := open[sector].(cnt := open[sector].cnt + 1)];
        return true;
      }
      ok := malloc;
      if ok {
        open := open[sector := F.OpenInode(1, false, disk[sector].e)];
      }
    }

    /** `inode_close`; only the last close of a removed inode gives its sectors back. */
    method InodeClose(sector: nat)
      requires F.Inv(View()) && sector in open
      modifies this`open, freeMap
      ensures F.Held(old(View()), sector) && old(open[sector]).cnt > 0 &&
              F.Within(old(disk[..]), old(open[sector]).data)
      ensures View() == F.InodeClose(old(View()), sector) && F.Inv(View())
    {
      F.InodeCloseKeepsInv(View(), sector);
      F.ReleaseAsserted(View(), sector);
      var inode := open[sector];
      if inode.cnt > 1 {
        open := open[sector := inode.(cnt := inode.cnt - 1)];
      } else {
        open := open - {sector};
        if inode.removed {
          FreeMapRelease(sector, 1);
          FreeMapRelease(inode.data.start, BytesToSectors(inode.data.length));
        }
      }
    }

    /** `filesys_create` with its rollback: the inode's sector is given back, the data sectors are not. */
    method Create(name: seq<Byte>, length: nat, luck: F.Luck) returns (success: bool)
      requires F.Inv(View())
      modifies this`dir, freeMap, disk
      ensures (success, View()) == F.Create(old(View()), name, length, luck) && F.Inv(View())
    {
      F.CreateKeepsInv(View(), name, length, luck);
      success := false;
      if luck.root {
        var sector := FreeMapAllocate(1, luck.map1);
        if sector.Some? {
          success := InodeCreate(sector.value, length, luck.calloc, luck.map2);
          success := success && F.DirAdds(dir, name, luck.slot);
          if success {
            dir := dir[name := sector.value];
          } else if sector.value != 0 {
            FreeMapRelease(sector.value, 1);
          }
        }
      }
    }

    /** `filesys_open`: the inode is closed again when there is no memory for the file. */
    method Open(name: seq<Byte>, luck: F.Luck) returns (inode: Option<nat>)
      requires F.Inv(View())
      modifies this`open, freeMap
      ensures F.Sound(old(View())) && (inode, View()) == F.Open(old(View()), name, luck) && F.Inv(View())
    {
      F.InvIsSound(View());
      inode := None;
      if luck.root && name in dir {
        var x := dir[name];
        F.InodeOpenKeepsInv(View(), x, luck.inode);
        var ok := InodeOpen(x, luck.inode);
        if ok && luck.file {
          inode := Some(x);
        } else if ok {
          InodeClose(x);
        }
      }
    }

    /** `filesys_remove`: the name goes at once, the sectors with the last close. */
    method Remove(name: seq<Byte>, luck: F.Luck) returns (success: bool)
      requires F.Inv(View())
      modifies this, freeMap
      ensures F.Sound(old(View())) && (success, View()) == F.Remove(old(View()), name, luck) && F.Inv(View())
    {
      F.InvIsSound(View());
      success := false;
      if luck.root && name in dir {
        var x := dir[name];
        F.InodeOpenKeepsInv(View(), x, luck.inode);
        var ok := InodeOpen(x, luck.inode);
        if ok {
          if luck.erase {
            F.ErasedKeepsInv(View(), name);
            dir := dir - {name};
            open := open[x := open[x].(removed := true)];
            success := true;
          }
          InodeClose(x);
        }
      }
    }
  }
}
