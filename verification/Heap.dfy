/**
 * The block allocator as it runs (threads/malloc.c): arena headers and free lists updated in place over the page
 * allocator, with the bytes of the kernel pool behind them.
 */
module Heap {
  import opened Common
  import opened Bitmaps
  import opened Blocks
  import Palloc
  import M = Malloc

  const POISON: Byte := 0xcc

  /**
   * Headers and list links are kept in `arenas` and `free`, apart from the bytes in `mem`; the bytes of the kernel pool
   * start at index 0. `live` is a history variable.
   */
  class Heap {
    const descs: seq<Desc>
    const pages: Palloc.Pages
    const mem: array<Byte>
    const free: array<seq<nat>>
    var arenas: map<nat, M.Arena>
    ghost var live: map<nat, nat>

    ghost function View(): M.State
      reads this, free, pages.kernelPool.usedMap
    {
      M.State(pages.kernelPool.base, pages.kernelPool.usedMap.bits, arenas, free[..], live)
    }

    ghost predicate Wired()
      reads this, free, pages.kernelPool.usedMap, pages.userPool.usedMap
    {
      && pages.Valid() && free.Length == DESC_CNT
      && |descs| == DESC_CNT && (forall d :: 0 <= d < DESC_CNT ==> descs[d] == Desc(BlockSize(d), BlocksPerArena(d)))
      && mem.Length == |pages.kernelPool.usedMap.bits| * PAGE_SIZE
    }

    ghost predicate Valid()
      reads this, free, pages.kernelPool.usedMap, pages.userPool.usedMap
    {
      Wired() && M.Inv(View())
    }

    constructor (kernelBase: nat, kernelPages: nat, userBase: nat, userPages: nat)
      requires 0 < kernelBase && kernelBase + kernelPages <= userBase
      ensures Valid() && View() == M.Initial(kernelBase, kernelPages)
    {
      var d := MallocInit();
      descs := d;
      pages := new Palloc.Pages(kernelBase, kernelPages, userBase, userPages);
      mem := new Byte[kernelPages * PAGE_SIZE](_ => 0);
      free := new seq<nat>[DESC_CNT](_ => []);
      arenas, live := map[], map[];
    }

    /** `arena_to_block` */
    method ArenaToBlock(p: nat, d: nat, i: nat) returns (b: nat)
      requires Wired() && d < DESC_CNT && i < BlocksPerArena(d)
      ensures b == BlockAt(p, d, i)
    {
      OffsetIs(d, i);
      b := p * PAGE_SIZE + ARENA_HEADER + i * descs[d].blockSize;
    }

    /** Carving a new page into the blocks of descriptor d. */
    method CutUp(d: nat, p: nat)
      requires Wired() && d < DESC_CNT && free[d] == []
      modifies this`arenas, free
      ensures arenas == old(arenas)[p := M.Small(d, BlocksPerArena(d))]
      ensures free[..] == old(free[..])[d := AllBlocks(p, d)]
    {
      arenas := arenas[p := M.Small(d, descs[d].blocksPerArena)];
      var i := 0;
      while i < descs[d].blocksPerArena
        invariant i <= BlocksPerArena(d) && arenas == old(arenas)[p := M.Small(d, BlocksPerArena(d))]
        invariant free[..] == old(free[..])[d := FirstBlocks(p, d, i)]
      {
        var b := ArenaToBlock(p, d, i);
        free[d] := free[d] + [b];
        i := i + 1;
      }
    }

    /** The part of `malloc` that makes a new arena. */
    method Refill(d: nat) returns (ok: bool)
      requires Valid() && d < DESC_CNT && free[d] == []
      modifies this`arenas, free, pages.kernelPool.usedMap
      ensures Wired()
      ensures var s, i := old(View()), FirstRun(old(View()).used, 0, 1, false);
              && ok == i.Some?
              && View() == if ok then M.Refilled(s, d, s.base + i.value) else s
    {
      ghost var s := View();
      var page := pages.GetMultiple(false, 1);
      ok := page.Some?;
      if ok {
        CutUp(d, page.value);
        assert View() == M.Refilled(s, d, page.value);
      }
    }

    /** The part of `malloc` that takes the front block. */
    method TakeFront(d: nat, size: nat) returns (b: nat)
      requires Wired() && M.Core(View()) && d < DESC_CNT && free[d] != []
      modifies this, free
      ensures Wired() && (Some(b), View()) == M.FromList(old(View()), d, size)
    {
      ghost var s := View();
      M.FrontIsFree(s, d);
      b := free[d][0];
      free[d] := free[d][1..];
      var a := arenas[PageOf(b)];
      arenas := arenas[PageOf(b) := a.(freeCnt := a.freeCnt - 1)];
      live := live[b := size];
      assert free[..] == s.free[d := s.free[d][1..]];
    }

    /** `malloc` when the list of its descriptor is empty. */
    method MallocNew(d: nat, size: nat) returns (b: Option<nat>)
      requires Valid() && d < DESC_CNT && free[d] == [] && 0 < size <= BlockSize(d) && size < SIZE_RANGE
      modifies this, free, pages.kernelPool.usedMap
      ensures Wired()
      ensures var s, i := old(View()), FirstRun(old(View()).used, 0, 1, false);
              (b, View()) == if i.Some? then M.FromNewArena(s, d, size, s.base + i.value) else (None, s)
    {
      ghost var s := View();
      ghost var i := FirstRun(s.used, 0, 1, false);
      var ok := Refill(d);
      b := None;
      if ok {
        M.NewIsRefilled(s, d, size, s.base + i.value);
        var block := TakeFront(d, size);
        b := Some(block);
      }
    }

    /** `malloc` for a size that a descriptor serves. */
    method MallocSmall(d: nat, size: nat) returns (b: Option<nat>)
      requires Valid() && d < DESC_CNT && 0 < size <= BlockSize(d) && size < SIZE_RANGE
      modifies this, free, pages.kernelPool.usedMap
      ensures Wired()
      ensures var s, i := old(View()), FirstRun(old(View()).used, 0, 1, false);
              (b, View()) == if s.free[d] != [] then M.FromList(s, d, size)
                             else if i.Some? then M.FromNewArena(s, d, size, s.base + i.value)
                             else (None, s)
    {
      if free[d] == [] {
        b := MallocNew(d, size);
      } else {
        var block := TakeFront(d, size);
        b := Some(block);
      }
    }

    /** `malloc` for a size that needs whole pages. */
    method MallocBig(size: nat) returns (b: Option<nat>)
      requires Valid() && BlockSize(DESC_CNT - 1) < size < SIZE_RANGE
      modifies this, pages.kernelPool.usedMap
      ensures Wired()
      ensures (b, View()) == M.MallocBig(old(View()), size, FirstRun(old(View()).used, 0, M.PagesFor(size), false))
    {
      var pageCnt := M.PagesFor(size);
      var page := pages.GetMultiple(false, pageCnt);
      if page.None? {
        return None;
      }
      arenas := arenas[page.value := M.Big(pageCnt)];
      b := Some(page.value * PAGE_SIZE + ARENA_HEADER);
      live := live[b.value := size];
    }

    /** The smallest descriptor for the size, or the number of descriptors. */
    method FindDesc(size: nat) returns (d: nat)
      requires Wired()
      ensures d == DescFor(0, size)
    {
      d := 0;
      while d < |descs| && descs[d].blockSize < size
        invariant d <= DESC_CNT && DescFor(0, size) == DescFor(d, size)
      {
        d := d + 1;
      }
    }

    method Malloc(size: nat) returns (b: Option<nat>)
      requires Valid() && size < SIZE_RANGE
      modifies this, free, pages.kernelPool.usedMap
      ensures Valid() && (b, View()) == M.Malloc(old(View()), size)
    {
      ghost var s := View();
      if size == 0 {
        return None;
      }
      var d := FindDesc(size);
      if d == |descs| {
        b := MallocBig(size);
        M.BigOutcome(s, size, (b, View()));
      } else {
        b := MallocSmall(d, size);
        M.SmallOutcome(s, size, d, FirstRun(s.used, 0, 1, false), (b, View()));
      }
    }

    /** memset of cnt bytes from address a. */
    method Fill(a: nat, cnt: nat)
      requires Wired() && pages.kernelPool.base * PAGE_SIZE <= a
      requires a + cnt <= pages.kernelPool.base * PAGE_SIZE + mem.Length
      modifies mem
      ensures OnlyWithin(old(mem[..]), mem[..], a - pages.kernelPool.base * PAGE_SIZE, cnt)
      ensures Poisoned(mem[..], a - pages.kernelPool.base * PAGE_SIZE, cnt)
    {
      var start := a - pages.kernelPool.base * PAGE_SIZE;
      var i := 0;
      while i < cnt
        invariant i <= cnt && OnlyWithin(old(mem[..]), mem[..], start, cnt) && Poisoned(mem[..], start, i)
      {
        mem[start + i] := POISON;
        i := i + 1;
      }
    }

    method SetList(d: nat, q: seq<nat>)
      requires d < free.Length
      modifies free
      ensures free[..] == old(free[..])[d := q]
    {
      free[d] := q;
    }

    /** Unlinking the blocks of the arena on page p. */
    method Unlink(d: nat, p: nat)
      requires Wired() && d < DESC_CNT
      requires forall b :: b in BlockSet(p, d, BlocksPerArena(d)) ==> b in free[d]
      modifies free
      ensures free[..] == old(free[..])[d := Minus(old(free[d]), BlockSet(p, d, BlocksPerArena(d)))]
    {
      ghost var q := free[d];
      MinusNothing(q);
      var i := 0;
      while i < descs[d].blocksPerArena
        invariant i <= BlocksPerArena(d) && free[..] == old(free[..])[d := Minus(q, BlockSet(p, d, i))]
      {
        var b := ArenaToBlock(p, d, i);
        NextLinked(q, p, d, i, b);
        assert b in free[d];
        SetList(d, Minus(free[d], {b}));
        i := i + 1;
      }
    }

    /** The part of `free` that returns a small block to its list. */
    method PutBack(b: nat)
      requires Wired() && M.Core(View()) && b in live && PageOf(b) in arenas && arenas[PageOf(b)].Small?
      modifies this, free
      ensures Wired() && View() == M.Put(old(View()), b) && M.Core(View())
    {
      M.LiveIsInUse(View(), b);
      M.PutKeepsCore(View(), b);
      ghost var s := View();
      var a := arenas[PageOf(b)];
      free[a.desc] := [b] + free[a.desc];
      arenas := arenas[PageOf(b) := a.(freeCnt := a.freeCnt + 1)];
      live := live - {b};
      assert free[..] == s.free[a.desc := [b] + s.free[a.desc]];
    }

    /** The part of `free` that takes an unused arena apart. */
    method Drop(p: nat)
      requires Wired() && M.Core(View()) && M.AllFree(View(), p)
      modifies this, free, pages.kernelPool.usedMap, mem
      ensures Wired() && pages.kernelPool.base <= p &&
              View().used == SetRange(old(View().used), p - View().base, 1, false)
      ensures M.Shape(old(View())) && p < old(View()).base + |old(View()).used| && View() == M.Dropped(old(View()), p)
      ensures OnlyWithin(old(mem[..]), mem[..], (p - View().base) * PAGE_SIZE, PAGE_SIZE)
      ensures Poisoned(mem[..], (p - View().base) * PAGE_SIZE, PAGE_SIZE)
    {
      ghost var s := View();
      M.AllFreeMeans(s, p);
      var d := arenas[p].desc;
      Unlink(d, p);
      arenas := arenas - {p};
      Fill(p * PAGE_SIZE, PAGE_SIZE);
      pages.FreeMultiple(false, p, 1);
    }

    /** `free` of a small block: poison it, put it back, and take its arena apart if that was the last one. */
    method FreeSmall(b: nat)
      requires Valid() && b in live && PageOf(b) in arenas && arenas[PageOf(b)].Small?
      modifies this, free, pages.kernelPool.usedMap, mem
      ensures Valid() && View() == M.Free(old(View()), b)
      ensures var (start, cnt) := Touched(old(View()), b);
              OnlyWithin(old(mem[..]), mem[..], start, cnt) && Poisoned(mem[..], start, cnt)
    {
      ghost var s, m := View(), mem[..];
      M.FreeKeepsInv(s, b);
      M.LiveInside(s, b);
      var p := PageOf(b);
      var d := arenas[p].desc;
      DescTable(d);
      Fill(b, descs[d].blockSize);
      PutBack(b);
      if arenas[p].freeCnt >= descs[d].blocksPerArena {
        M.CountIsAll(View(), p);
        assert arenas[p].freeCnt == descs[d].blocksPerArena;
        Drop(p);
      }
    }

    /** `free` of a big block: the pages are poisoned and given back. */
    method FreeBig(b: nat)
      requires Valid() && b in live && PageOf(b) in arenas && arenas[PageOf(b)].Big?
      modifies this, free, pages.kernelPool.usedMap, mem
      ensures Valid() && View() == M.Free(old(View()), b)
      ensures var (start, cnt) := Touched(old(View()), b);
              OnlyWithin(old(mem[..]), mem[..], start, cnt) && Poisoned(mem[..], start, cnt)
    {
      ghost var s := View();
      M.FreeKeepsInv(s, b);
      M.BigFreedKeepsCore(s, b);
      var p := PageOf(b);
      var pageCnt := arenas[p].pages;
      arenas := arenas - {p};
      live := live - {b};
      Fill(p * PAGE_SIZE, PAGE_SIZE * pageCnt);
      pages.FreeMultiple(false, p, pageCnt);
    }

    /** `free`: the block, or its whole arena if that goes, is overwritten; every other block keeps its bytes. */
    method Free(p: Option<nat>)
      requires Valid() && (p.Some? ==> p.value in live)
      modifies this, free, pages.kernelPool.usedMap, mem
      ensures Valid()
      ensures View() == if p.Some? then M.Free(old(View()), p.value) else old(View())
      ensures p.Some? ==> Poisoned(mem[..], Touched(old(View()), p.value).0, Touched(old(View()), p.value).1)
      ensures forall c :: c in live ==>
              c in old(live) && BytesOf(View(), mem[..], c) == BytesOf(old(View()), old(mem[..]), c)
    {
      if p.Some? {
        ghost var s, m := View(), mem[..];
        M.LiveIsInUse(s, p.value);
        if arenas[PageOf(p.value)].Small? {
          FreeSmall(p.value);
        } else {
          FreeBig(p.value);
        }
        forall c | c in live
          ensures c in s.live && BytesOf(View(), mem[..], c) == BytesOf(s, m, c)
        {
          BytesStay(s, m, mem[..], p.value, c);
        }
      }
    }

    /** memcpy of n bytes from index `from` of the pool to index `to`. */
    method CopyBytes(to: nat, from: nat, n: nat)
      requires to + n <= mem.Length && from + n <= mem.Length && (to + n <= from || from + n <= to)
      modifies mem
      ensures OnlyWithin(old(mem[..]), mem[..], to, n) && mem[to..to + n] == old(mem[from..from + n])
    {
      ghost var m := mem[..];
      var i := 0;
      while i < n
        invariant i <= n && OnlyWithin(m, mem[..], to, n)
        invariant mem[to..to + i] == m[from..from + i]
      {
        mem[to + i] := mem[from + i];
        i := i + 1;
      }
    }

    /** memcpy of n bytes between two live blocks. */
    method Copy(dst: nat, src: nat, n: nat)
      requires Valid() && dst in live && src in live && dst != src
      requires n <= |BytesOf(View(), mem[..], dst)| && n <= |BytesOf(View(), mem[..], src)|
      modifies mem
      ensures BytesOf(View(), mem[..], dst) ==
                BytesOf(View(), old(mem[..]), src)[..n] + BytesOf(View(), old(mem[..]), dst)[n..]
      ensures forall c :: c in live && c != dst ==> BytesOf(View(), mem[..], c) == BytesOf(View(), old(mem[..]), c)
    {
      ghost var s, m := View(), mem[..];
      var base := pages.kernelPool.base * PAGE_SIZE;
      CopyBounds(s, m, dst, src);
      CopyBytes(dst - base, src - base, n);
      CopyEffect(s, m, mem[..], dst, src, n);
    }

    /** The end of `realloc`: as much of the old block as fits goes to the new one, and the old one is freed. */
    method MoveTo(dst: nat, src: nat, newSize: nat)
      requires Valid() && dst in live && src in live && dst != src
      requires newSize <= |BytesOf(View(), mem[..], dst)| ||
               |BytesOf(View(), mem[..], src)| <= |BytesOf(View(), mem[..], dst)|
      modifies this, free, pages.kernelPool.usedMap, mem
      ensures Valid() && View() == M.Free(old(View()), src) && src !in live && dst in live
      ensures Carried(BytesOf(old(View()), old(mem[..]), src), BytesOf(View(), mem[..], dst), newSize)
      ensures forall c :: c in live && c != dst ==>
                c in old(live) && BytesOf(View(), mem[..], c) == BytesOf(old(View()), old(mem[..]), c)
    {
      ghost var s := View();
      var oldSize := SizeOfBlock(src);
      var minSize := if newSize < oldSize then newSize else oldSize;
      Copy(dst, src, minSize);
      M.FreeRemoves(s, src);
      Free(Some(src));
    }

    /** `block_size` */
    method SizeOfBlock(b: nat) returns (size: nat)
      requires Valid() && b in live
      ensures size == |BytesOf(View(), mem[..], b)|
    {
      M.LiveInPool(View(), b);
      match arenas[PageOf(b)]
      case Small(d, _) => size := descs[d].blockSize;
      case Big(n) => size := PAGE_SIZE * n - b % PAGE_SIZE;
    }

    /** `malloc` as `realloc` sees it: all live blocks stay, with their bytes, and the result is not one of them. */
    method NewBlockFor(size: nat) returns (r: Option<nat>)
      requires Valid() && 0 < size < SIZE_RANGE
      modifies this, free, pages.kernelPool.usedMap
      ensures Valid() && (r, View()) == M.Malloc(old(View()), size)
      ensures r.None? ==> View() == old(View())
      ensures r.Some? ==> r.value !in old(live) && r.value in live
      ensures forall c :: c in live && Some(c) != r ==> c in old(live)
      ensures forall c :: c in old(live) ==>
                c in live && BytesOf(View(), mem[..], c) == BytesOf(old(View()), mem[..], c)
    {
      AfterMalloc(View(), size, mem[..]);
      r := Malloc(size);
    }

    /**
     * `realloc`. The old contents are kept as far as they fit; on failure the old block is untouched. The last
     * condition is exactly that the copy does not run past the new block (CopyFitsIff).
     */
    method Realloc(oldBlock: Option<nat>, newSize: nat) returns (r: Option<nat>)
      requires Valid() && newSize < SIZE_RANGE && (oldBlock.Some? ==> oldBlock.value in live)
      requires oldBlock.None? || M.Malloc(View(), newSize).0.None? || MayMove(View(), oldBlock.value, newSize)
      modifies this, free, pages.kernelPool.usedMap, mem
      ensures Valid()
      ensures newSize == 0 ==>
              r.None? && View() == if oldBlock.Some? then M.Free(old(View()), oldBlock.value) else old(View())
      ensures newSize > 0 ==> r == M.Malloc(old(View()), newSize).0
      ensures newSize > 0 && r.None? ==> View() == old(View()) && mem[..] == old(mem[..])
      ensures r.Some? ==> r.value in live && r.value !in old(live)
      ensures r.Some? && oldBlock.Some? ==>
                && oldBlock.value !in live
                && Carried(BytesOf(old(View()), old(mem[..]), oldBlock.value), BytesOf(View(), mem[..], r.value),
                    newSize)
      ensures forall c :: c in live && Some(c) != r ==>
                c in old(live) && BytesOf(View(), mem[..], c) == BytesOf(old(View()), old(mem[..]), c)
    {
      r := None;
      if newSize == 0 {
        Free(oldBlock);
        return;
      }
      ghost var s, m := View(), mem[..];
      r := NewBlockFor(newSize);
      if oldBlock.Some? && r.Some? {
        NewFits(s, newSize, m, oldBlock.value, r.value);
        MoveTo(r.value, oldBlock.value, newSize);
      }
    }
  }

  /** What `realloc` would copy out of live block b fits into the new one. */
  ghost predicate MayMove(s: M.State, b: nat, newSize: nat)
    requires M.Inv(s) && b in s.live
  {
    M.LiveInPool(s, b);
    M.CopyFits(s, b, newSize)
  }

  /** After i blocks of an arena were unlinked, the next one is still on the list. */
  lemma NextLinked(q: seq<nat>, p: nat, d: nat, i: nat, b: nat)
    requires i < BlocksPerArena(d) && d < DESC_CNT && b == BlockAt(p, d, i)
    requires forall b :: b in BlockSet(p, d, BlocksPerArena(d)) ==> b in q
    ensures b in Minus(q, BlockSet(p, d, i))
    ensures Minus(Minus(q, BlockSet(p, d, i)), {b}) == Minus(q, BlockSet(p, d, i + 1))
  {
    MinusKeeps(q, BlockSet(p, d, i));
    BlockSetIs(p, d, i, b);
    BlockSetIs(p, d, BlocksPerArena(d), b);
    BlocksDiffer(p, d, i);
    MinusTwice(q, BlockSet(p, d, i), b);
  }

  /** The new block begins with the old one's bytes, as many as were there and were asked for. */
  ghost predicate Carried(was: seq<Byte>, now: seq<Byte>, size: nat) {
    var n := if size < |was| then size else |was|;
    n <= |now| && now[..n] == was[..n]
  }

  /** The part of the pool's bytes that `free` of b overwrites: the block, or all pages of an arena that goes. */
  ghost function Touched(s: M.State, b: nat): (int, nat)
    requires M.Inv(s) && b in s.live
  {
    M.LiveIsInUse(s, b);
    var p := PageOf(b);
    if p in M.Free(s, b).arenas then (b - s.base * PAGE_SIZE, M.Capacity(s, b) as int)
    else ((p - s.base) * PAGE_SIZE, M.Span(s.arenas[p]) * PAGE_SIZE)
  }

  /** The bytes of a live block. */
  ghost function BytesOf(s: M.State, m: seq<Byte>, b: nat): seq<Byte>
    requires M.Inv(s) && b in s.live && |m| == |s.used| * PAGE_SIZE
  {
    M.LiveInPool(s, b);
    var start := b - s.base * PAGE_SIZE;
    m[start..start + M.Capacity(s, b)]
  }

  lemma BytesLength(s: M.State, m: seq<Byte>, b: nat)
    requires M.Inv(s) && b in s.live && |m| == |s.used| * PAGE_SIZE
    ensures PageOf(b) in s.arenas && |BytesOf(s, m, b)| == M.Capacity(s, b)
  {
    M.LiveInPool(s, b);
  }

  ghost predicate Poisoned(m: seq<Byte>, start: int, cnt: nat) {
    0 <= start <= start + cnt <= |m| && forall k :: start <= k < start + cnt ==> m[k] == 0xcc
  }

  /** m' differs from m only in cnt bytes from start on. */
  ghost predicate OnlyWithin(m: seq<Byte>, m': seq<Byte>, start: int, cnt: nat) {
    |m'| == |m| && forall k :: 0 <= k < |m| && !(start <= k < start + cnt) ==> m'[k] == m[k]
  }

  lemma SliceKept(m: seq<Byte>, m': seq<Byte>, start: int, cnt: nat, lo: nat, hi: nat)
    requires OnlyWithin(m, m', start, cnt) && lo <= hi <= |m| && (start + cnt <= lo || hi <= start)
    ensures m'[lo..hi] == m[lo..hi]
  {
  }

  lemma Overlaid(m: seq<Byte>, m': seq<Byte>, to: nat, from: nat, n: nat, toSize: nat, fromSize: nat)
    requires OnlyWithin(m, m', to, n) && n <= toSize && n <= fromSize && to + toSize <= |m| && from + fromSize <= |m|
    requires m'[to..to + n] == m[from..from + n]
    ensures m'[to..to + toSize] == m[from..from + fromSize][..n] + m[to..to + toSize][n..]
  {
    assert m'[to..to + toSize] == m'[to..to + n] + m'[to + n..to + toSize];
    assert m'[to + n..to + toSize] == m[to + n..to + toSize];
  }

  lemma BytesSame(s: M.State, size: nat, m: seq<Byte>, c: nat)
    requires M.Inv(s) && size < SIZE_RANGE && |m| == |s.used| * PAGE_SIZE && c in s.live
    ensures var (b, s') := M.Malloc(s, size);
            && b != Some(c) && M.Inv(s') && |s'.used| == |s.used|
            && c in s'.live && BytesOf(s', m, c) == BytesOf(s, m, c)
  {
    M.MallocKeepsInv(s, size);
    M.MallocLeavesOthers(s, size, c);
  }

  lemma NewBlock(s: M.State, size: nat, m: seq<Byte>, b: nat)
    requires M.Inv(s) && 0 < size < SIZE_RANGE && |m| == |s.used| * PAGE_SIZE
    requires M.Malloc(s, size).0 == Some(b)
    ensures var s' := M.Malloc(s, size).1;
            && M.Inv(s') && |s'.used| == |s.used| && s'.live == s.live[b := size] && b !in s.live
            && (size <= SIZE_RANGE - ARENA_HEADER ==> |BytesOf(s', m, b)| >= size)
  {
    M.MallocAdds(s, size);
    var s' := M.Malloc(s, size).1;
    M.LiveLargeEnough(s', b);
    M.UsedLength(s, size);
    BytesLength(s', m, b);
    if b in s.live {
      M.MallocLeavesOthers(s, size, b);
    }
  }

  /** The new block takes the bytes that `realloc` copies into it. */
  lemma NewFits(s: M.State, size: nat, m: seq<Byte>, b: nat, c: nat)
    requires M.Inv(s) && 0 < size < SIZE_RANGE && |m| == |s.used| * PAGE_SIZE && b in s.live && MayMove(s, b, size)
    requires M.Malloc(s, size).0 == Some(c)
    ensures var s' := M.Malloc(s, size).1;
            && M.Inv(s') && |s'.used| == |s.used| && b in s'.live && c in s'.live
            && (size <= |BytesOf(s', m, c)| || |BytesOf(s', m, b)| <= |BytesOf(s', m, c)|)
  {
    var s' := M.Malloc(s, size).1;
    NewBlock(s, size, m, c);
    BytesSame(s, size, m, b);
    M.CopyFitsIff(s, b, size);
    BytesLength(s', m, b);
    BytesLength(s', m, c);
  }

  /** `malloc` keeps all blocks and their bytes, and its result is a new block. */
  lemma AfterMalloc(s: M.State, size: nat, m: seq<Byte>)
    requires M.Inv(s) && 0 < size < SIZE_RANGE && |m| == |s.used| * PAGE_SIZE
    ensures var (b, s') := M.Malloc(s, size);
            && M.Inv(s') && |s'.used| == |s.used|
            && (b.None? ==> s' == s)
            && (b.Some? ==>
                  && b.value !in s.live && s'.live == s.live[b.value := size]
                  && (size <= SIZE_RANGE - ARENA_HEADER ==> |BytesOf(s', m, b.value)| >= size))
            && (forall c :: c in s.live ==> c in s'.live && BytesOf(s', m, c) == BytesOf(s, m, c))
  {
    var (b, s') := M.Malloc(s, size);
    M.MallocKeepsInv(s, size);
    M.UsedLength(s, size);
    if b.Some? {
      NewBlock(s, size, m, b.value);
    } else {
      M.NothingChanges(s, size);
    }
    forall c | c in s.live
      ensures c in s'.live && BytesOf(s', m, c) == BytesOf(s, m, c)
    {
      BytesSame(s, size, m, c);
    }
  }

  /** Writing into one live block leaves the others alone. */
  lemma OutsideKept(s: M.State, m: seq<Byte>, m': seq<Byte>, b: nat, n: nat, c: nat)
    requires M.Inv(s) && b in s.live && c in s.live && b != c && |m| == |s.used| * PAGE_SIZE
    requires PageOf(b) in s.arenas && n <= M.Capacity(s, b) && OnlyWithin(m, m', b - s.base * PAGE_SIZE, n)
    ensures BytesOf(s, m', c) == BytesOf(s, m, c)
  {
    M.LiveInPool(s, c);
    M.LiveApart(s, if b < c then b else c, if b < c then c else b);
    var lo := c - s.base * PAGE_SIZE;
    SliceKept(m, m', b - s.base * PAGE_SIZE, n, lo, lo + M.Capacity(s, c));
  }

  lemma CopyBounds(s: M.State, m: seq<Byte>, dst: nat, src: nat)
    requires M.Inv(s) && dst in s.live && src in s.live && dst != src && |m| == |s.used| * PAGE_SIZE
    ensures var to, from := dst - s.base * PAGE_SIZE, src - s.base * PAGE_SIZE;
            && 0 <= to <= to + |BytesOf(s, m, dst)| <= |m| && 0 <= from <= from + |BytesOf(s, m, src)| <= |m|
            && (to + |BytesOf(s, m, dst)| <= from || from + |BytesOf(s, m, src)| <= to)
  {
    M.LiveInPool(s, dst);
    M.LiveInPool(s, src);
    M.LiveApart(s, if dst < src then dst else src, if dst < src then src else dst);
  }

  lemma CopyEffect(s: M.State, m: seq<Byte>, m': seq<Byte>, dst: nat, src: nat, n: nat)
    requires M.Inv(s) && dst in s.live && src in s.live && dst != src && |m| == |s.used| * PAGE_SIZE == |m'|
    requires n <= |BytesOf(s, m, dst)| && n <= |BytesOf(s, m, src)|
    requires var to, from := dst - s.base * PAGE_SIZE, src - s.base * PAGE_SIZE;
             0 <= to <= to + n <= |m| && 0 <= from <= from + n <= |m| && OnlyWithin(m, m', to, n) &&
                 m'[to..to + n] == m[from..from + n]
    ensures BytesOf(s, m', dst) == BytesOf(s, m, src)[..n] + BytesOf(s, m, dst)[n..]
    ensures forall c :: c in s.live && c != dst ==> BytesOf(s, m', c) == BytesOf(s, m, c)
  {
    M.LiveInPool(s, dst);
    M.LiveInPool(s, src);
    Overlaid(m, m', dst - s.base * PAGE_SIZE, src - s.base * PAGE_SIZE, n, M.Capacity(s, dst), M.Capacity(s, src));
    forall c | c in s.live && c != dst
      ensures BytesOf(s, m', c) == BytesOf(s, m, c)
    {
      OutsideKept(s, m, m', dst, n, c);
    }
  }

  lemma BytesStay(s: M.State, m: seq<Byte>, m': seq<Byte>, b: nat, c: nat)
    requires M.Inv(s) && b in s.live && |m| == |s.used| * PAGE_SIZE && c in M.Free(s, b).live
    requires OnlyWithin(m, m', Touched(s, b).0, Touched(s, b).1)
    ensures c in s.live && M.Inv(M.Free(s, b)) && |m'| == |M.Free(s, b).used| * PAGE_SIZE
    ensures BytesOf(M.Free(s, b), m', c) == BytesOf(s, m, c)
  {
    M.FreeKeepsInv(s, b);
    M.FreeLeavesOthers(s, b, c);
    M.FreeTouches(s, b, c);
    M.LiveInPool(s, c);
    var lo := c - s.base * PAGE_SIZE;
    SliceKept(m, m', Touched(s, b).0, Touched(s, b).1, lo, lo + M.Capacity(s, c));
  }
}
