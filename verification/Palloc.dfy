/** The page allocator: two pools of pages, each with its own bitmap (threads/palloc.c). Pages are known by number. */
module Palloc {
  import opened Common
  import opened Bitmaps

  /** `page_from_pool` */
  predicate FromPool(base: nat, size: nat, page: nat) {
    base <= page < base + size
  }

  class Pool {
    const base: nat
    const usedMap: Bitmap

    constructor (base: nat, size: nat)
      ensures this.base == base && fresh(usedMap) && usedMap.bits == seq(size, _ => false)
    {
      this.base := base;
      usedMap := new Bitmap(size);
    }
  }

  class Pages {
    const kernelPool: Pool
    const userPool: Pool

    /** The user pool starts after the end of the kernel pool. */
    ghost predicate Valid()
      reads kernelPool.usedMap, userPool.usedMap
    {
      && kernelPool.usedMap != userPool.usedMap
      && 0 < kernelPool.base && kernelPool.base + |kernelPool.usedMap.bits| <= userPool.base
    }

    constructor (kernelBase: nat, kernelPages: nat, userBase: nat, userPages: nat)
      requires 0 < kernelBase && kernelBase + kernelPages <= userBase
      ensures Valid() && fresh(kernelPool) && fresh(userPool) && fresh(kernelPool.usedMap) && fresh(userPool.usedMap)
      ensures kernelPool.base == kernelBase && kernelPool.usedMap.bits == seq(kernelPages, _ => false)
      ensures userPool.base == userBase && userPool.usedMap.bits == seq(userPages, _ => false)
    {
      kernelPool := new Pool(kernelBase, kernelPages);
      userPool := new Pool(userBase, userPages);
    }

    function PoolOf(user: bool): Pool {
      if user then userPool else kernelPool
    }

    /** `palloc_get_multiple`: the first run of free pages, or nothing. */
    method GetMultiple(user: bool, pageCnt: nat) returns (page: Option<nat>)
      requires Valid()
      modifies PoolOf(user).usedMap
      ensures Valid() && |PoolOf(user).usedMap.bits| == |old(PoolOf(user).usedMap.bits)|
      ensures var m, base := old(PoolOf(user).usedMap.bits), PoolOf(user).base;
              if pageCnt == 0 || FirstRun(m, 0, pageCnt, false).None?
              then page.None? && PoolOf(user).usedMap.bits == m
              else page == Some(base + FirstRun(m, 0, pageCnt, false).value) &&
                   PoolOf(user).usedMap.bits == SetRange(m, FirstRun(m, 0, pageCnt, false).value, pageCnt, true)
    {
      if pageCnt == 0 {
        return None;
      }
      var pool := PoolOf(user);
      var i := pool.usedMap.ScanAndFlip(0, pageCnt, false);
      page := if i.Some? then Some(pool.base + i.value) else None;
    }

    /**
     * `palloc_free_multiple`. The pool is found from the page number; pages of neither pool, and pages that are not in
     * use, are refused by assertions.
     */
    method FreeMultiple(ghost user: bool, page: nat, pageCnt: nat)
      requires Valid() && FromPool(PoolOf(user).base, |PoolOf(user).usedMap.bits|, page)
      requires pageCnt > 0 ==> RunAt(PoolOf(user).usedMap.bits, page - PoolOf(user).base, pageCnt, true)
      modifies PoolOf(user).usedMap
      ensures Valid()
      ensures PoolOf(user).usedMap.bits ==
                if pageCnt == 0 then old(PoolOf(user).usedMap.bits)
                else SetRange(old(PoolOf(user).usedMap.bits), page - PoolOf(user).base, pageCnt, false)
    {
      if page == 0 || pageCnt == 0 {
        return;
      }
      var pool := if FromPool(kernelPool.base, |kernelPool.usedMap.bits|, page) then kernelPool else userPool;
      assert pool == PoolOf(user);
      var all := pool.usedMap.All(page - pool.base, pageCnt);
      assert all;
      pool.usedMap.SetMultiple(page - pool.base, pageCnt, false);
    }
  }

  /** Pages handed out and taken back leave the pools as they were. */
  method GetThenFree(pages: Pages, user: bool, pageCnt: nat) returns (page: Option<nat>)
    requires pages.Valid()
    modifies pages.PoolOf(user).usedMap
    ensures pages.Valid() && pages.PoolOf(user).usedMap.bits == old(pages.PoolOf(user).usedMap.bits)
  {
    ghost var m := pages.PoolOf(user).usedMap.bits;
    page := pages.GetMultiple(user, pageCnt);
    if page.Some? {
      FlipAndBack(m, page.value - pages.PoolOf(user).base, pageCnt, false);
      pages.FreeMultiple(user, page.value, pageCnt);
    }
  }
}
