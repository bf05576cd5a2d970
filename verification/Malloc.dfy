/**
 * The block allocator (threads/malloc.c) over pages: small blocks are carved out of one-page arenas that belong to a
 * descriptor, each with a list of free blocks; larger requests get whole pages with an arena header in front.
 */
module Malloc {
  import opened Common
  import opened Bitmaps
  import opened Blocks

  /** The header at the start of an arena. */
  datatype Arena = Small(desc: nat, freeCnt: nat) | Big(pages: nat)

  /**
   * Pages are known by number; `used` is the page allocator's map, `arenas` the headers by page, `free` the lists of
   * the descriptors. `live` is a history variable: the blocks handed out and not yet freed, with the sizes asked for.
   */
  datatype State = State(base: nat, used: seq<bool>, arenas: map<nat, Arena>, free: seq<seq<nat>>, live: map<nat, nat>)

  // ---------- The operations as functions ----------

  /** A 32-bit sum. */
  function Wrapped(x: nat): (r: nat)
    requires x < 2 * SIZE_RANGE
    ensures r < SIZE_RANGE
  {
    if x < SIZE_RANGE then x else x - SIZE_RANGE
  }

  /** The pages for a large request, in 32-bit arithmetic. */
  function PagesFor(size: nat): (r: nat)
    requires size < SIZE_RANGE
  {
    Wrapped(Wrapped(size + ARENA_HEADER) + PAGE_SIZE - 1) / PAGE_SIZE
  }

  function BigBlock(p: nat): nat {
    p * PAGE_SIZE + ARENA_HEADER
  }

  predicate Shape(s: State) {
    && |s.free| == DESC_CNT && s.base > 0
    && (forall p :: p in s.arenas && s.arenas[p].Small? ==> s.arenas[p].desc < DESC_CNT)
  }

  /** A new arena for descriptor d on page p, all of it free. */
  function Refilled(s: State, d: nat, p: nat): (r: State)
    requires Shape(s) && d < DESC_CNT && s.free[d] == [] && s.base <= p < s.base + |s.used|
    ensures Shape(r)
  {
    s.(used := SetRange(s.used, p - s.base, 1, true),
       arenas := s.arenas[p := Small(d, BlocksPerArena(d))],
       free := s.free[d := AllBlocks(p, d)])
  }

  /** The front of the list of d is handed out. */
  function Taken(s: State, d: nat, size: nat): (r: State)
    requires Shape(s) && d < DESC_CNT && s.free[d] != []
    requires PageOf(s.free[d][0]) in s.arenas && s.arenas[PageOf(s.free[d][0])] .Small?
    requires s.arenas[PageOf(s.free[d][0])].freeCnt > 0
    ensures Shape(r)
  {
    var b := s.free[d][0];
    var a := s.arenas[PageOf(b)];
    s.(arenas := s.arenas[PageOf(b) := a.(freeCnt := a.freeCnt - 1)], free := s.free[d := s.free[d][1..]],
        live := s.live[b := size])
  }

  /** Block b goes back to the front of its list. */
  function Put(s: State, b: nat): (r: State)
    requires Shape(s) && PageOf(b) in s.arenas && s.arenas[PageOf(b)].Small?
    ensures Shape(r)
  {
    var a := s.arenas[PageOf(b)];
    s.(arenas := s.arenas[PageOf(b) := a.(freeCnt := a.freeCnt + 1)],
       free := s.free[a.desc := [b] + s.free[a.desc]],
       live := s.live - {b})
  }

  /** The arena on page p is taken apart and its page given back. */
  function Dropped(s: State, p: nat): (r: State)
    requires Shape(s) && p in s.arenas && s.arenas[p].Small? && s.base <= p < s.base + |s.used|
    ensures Shape(r)
  {
    var d := s.arenas[p].desc;
    s.(used := SetRange(s.used, p - s.base, 1, false),
       arenas := s.arenas - {p},
       free := s.free[d := Minus(s.free[d], BlockSet(p, d, BlocksPerArena(d)))])
  }

  /** n pages from p on become one block. */
  function BigTaken(s: State, p: nat, n: nat, size: nat): (r: State)
    requires Shape(s) && s.base <= p && p + n <= s.base + |s.used|
    ensures Shape(r)
  {
    s.(used := SetRange(s.used, p - s.base, n, true), arenas := s.arenas[p := Big(n)],
        live := s.live[BigBlock(p) := size])
  }

  function BigFreed(s: State, b: nat): (r: State)
    requires Shape(s) && PageOf(b) in s.arenas && s.arenas[PageOf(b)].Big?
    requires s.base <= PageOf(b) && PageOf(b) + s.arenas[PageOf(b)].pages <= s.base + |s.used|
    ensures Shape(r)
  {
    var p := PageOf(b);
    s.(used := SetRange(s.used, p - s.base, s.arenas[p].pages, false), arenas := s.arenas - {p}, live := s.live - {b})
  }

  // ---------- The invariant ----------

  ghost function LiveOn(s: State, p: nat): set<nat> {
    set b | b in s.live && PageOf(b) == p
  }

  /**
   * The header's count is that of its blocks on the list, and the others are handed out; pages in use are so marked.
   */
  ghost predicate ArenaOk(s: State, p: nat)
    requires Shape(s) && p in s.arenas
  {
    && s.base <= p
    && match s.arenas[p]
       case Small(d, freeCnt) =>
         && RunAt(s.used, p - s.base, 1, true)
         && freeCnt == OnPage(s.free[d], p) && freeCnt + |LiveOn(s, p)| == BlocksPerArena(d)
       case Big(n) => n > 0 && RunAt(s.used, p - s.base, n, true) && BigBlock(p) in s.live
  }

  function Span(a: Arena): nat {
    if a.Small? then 1 else a.pages
  }

  /** The pages of two arenas do not overlap. */
  predicate Clear(s: State, p: nat, q: nat) {
    p in s.arenas && q in s.arenas && p < q ==> p + Span(s.arenas[p]) <= q
  }

  ghost predicate Apart(s: State) {
    forall p, q :: Clear(s, p, q)
  }

  predicate SmallAt(s: State, b: nat, d: nat) {
    PageOf(b) in s.arenas && s.arenas[PageOf(b)].Small? && s.arenas[PageOf(b)].desc == d && IsBlock(b, d)
  }

  ghost predicate ListOk(s: State, d: nat)
    requires Shape(s) && d < DESC_CNT
  {
    Distinct(s.free[d]) && forall b :: b in s.free[d] ==> SmallAt(s, b, d)
  }

  /** A handed-out block is a well-placed block of its arena; the size asked for decided which kind. */
  ghost predicate LiveOk(s: State, b: nat)
    requires b in s.live
  {
    && PageOf(b) in s.arenas && 0 < s.live[b] < SIZE_RANGE
    && match s.arenas[PageOf(b)]
       case Small(d, _) => IsBlock(b, d) && s.live[b] <= BlockSize(d)
       case Big(n) => b == BigBlock(PageOf(b)) && n == PagesFor(s.live[b]) && s.live[b] > BlockSize(DESC_CNT - 1)
  }

  /** Every small block is either handed out or on its list. */
  ghost predicate Settled(s: State, b: nat)
    requires Shape(s)
  {
    forall d :: 0 <= d < DESC_CNT && SmallAt(s, b, d) ==> (b in s.live <==> b !in s.free[d])
  }

  ghost predicate Core(s: State) {
    && Shape(s) && Apart(s)
    && (forall p {:trigger ArenaOk(s, p)} :: p in s.arenas ==> ArenaOk(s, p))
    && (forall d :: 0 <= d < DESC_CNT ==> ListOk(s, d))
    && (forall b {:trigger LiveOk(s, b)} :: b in s.live ==> LiveOk(s, b))
    && (forall b :: Settled(s, b))
  }

  /** A small arena is not all free. */
  predicate Busy(s: State, p: nat) {
    p in s.arenas && s.arenas[p].Small? ==> s.arenas[p].freeCnt < BlocksPerArena(s.arenas[p].desc)
  }

  ghost predicate NoIdle(s: State) {
    forall p :: Busy(s, p)
  }

  ghost predicate Inv(s: State) {
    Core(s) && NoIdle(s)
  }

  lemma StillApart(s: State, s': State)
    requires Apart(s) && forall p :: p in s'.arenas ==> p in s.arenas && Span(s'.arenas[p]) == Span(s.arenas[p])
    ensures Apart(s')
  {
    forall p, q
      ensures Clear(s', p, q)
    {
      assert Clear(s, p, q);
    }
  }

  lemma ApartWith(s: State, s': State, p: nat, a: Arena)
    requires Apart(s) && s'.arenas == s.arenas[p := a]
    requires forall q :: q in s.arenas ==> q < q + Span(s.arenas[q]) <= p || p + Span(a) <= q
    ensures Apart(s')
  {
    forall q, r
      ensures Clear(s', q, r)
    {
      assert Clear(s, q, r);
    }
  }

  lemma StillBusy(s: State, s': State, p: nat)
    requires NoIdle(s) && Busy(s', p)
    requires forall q :: q in s'.arenas && q != p && s'.arenas[q].Small? ==>
             q in s.arenas && s.arenas[q] == s'.arenas[q]
    ensures NoIdle(s')
  {
    forall q
      ensures Busy(s', q)
    {
      assert Busy(s, q);
    }
  }

  // ---------- A new arena ----------

  lemma UsedPage(s: State, q: nat, x: nat)
    requires Shape(s) && q in s.arenas && ArenaOk(s, q)
    ensures q <= x < q + Span(s.arenas[q]) ==> s.base <= x < s.base + |s.used| && s.used[x - s.base]
  {
  }

  /** Pages that are free belong to no arena. */
  lemma FreePage(s: State, p: nat, n: nat)
    requires Core(s) && n > 0 && s.base <= p && RunAt(s.used, p - s.base, n, false)
    ensures forall q :: q in s.arenas ==> q < q + Span(s.arenas[q]) <= p || p + n <= q
    ensures p !in s.arenas
    ensures forall b :: b in s.live ==> PageOf(b) < p || p + n <= PageOf(b)
  {
    forall q | q in s.arenas
      ensures q < q + Span(s.arenas[q]) <= p || p + n <= q
    {
      assert ArenaOk(s, q);
      UsedPage(s, q, if q < p then p else q);
    }
    forall b | b in s.live
      ensures PageOf(b) < p || p + n <= PageOf(b)
    {
      assert LiveOk(s, b);
    }
  }

  lemma RefillArena(s: State, d: nat, p: nat, q: nat)
    requires Core(s) && d < DESC_CNT && s.free[d] == [] && s.base <= p && RunAt(s.used, p - s.base, 1, false)
    requires q in Refilled(s, d, p).arenas
    ensures ArenaOk(Refilled(s, d, p), q)
  {
    var s' := Refilled(s, d, p);
    FreePage(s, p, 1);
    assert s'.free[d] == AllBlocks(p, d);
    CountBlocks(p, d, BlocksPerArena(d), q);
    assert LiveOn(s', q) == LiveOn(s, q);
    if q == p {
      assert LiveOn(s, p) == {};
    } else {
      assert ArenaOk(s, q);
    }
  }

  lemma RefillList(s: State, d: nat, p: nat, e: nat)
    requires Core(s) && d < DESC_CNT && e < DESC_CNT && s.free[d] == [] && s.base <= p &&
             RunAt(s.used, p - s.base, 1, false)
    ensures ListOk(Refilled(s, d, p), e)
  {
    var s' := Refilled(s, d, p);
    FreePage(s, p, 1);
    assert s'.free[d] == AllBlocks(p, d);
    FirstBlocksAre(p, d, BlocksPerArena(d));
    assert ListOk(s, e);
    forall b | b in s'.free[e]
      ensures SmallAt(s', b, e)
    {
      if e == d {
        BlocksOfPage(p, d, b);
      }
    }
  }

  lemma RefillKeepsCore(s: State, d: nat, p: nat)
    requires Core(s) && d < DESC_CNT && s.free[d] == [] && s.base <= p && RunAt(s.used, p - s.base, 1, false)
    ensures Core(Refilled(s, d, p)) && Refilled(s, d, p).free[d] == AllBlocks(p, d)
  {
    var s' := Refilled(s, d, p);
    FreePage(s, p, 1);
    ApartWith(s, s', p, Small(d, BlocksPerArena(d)));
    forall q | q in s'.arenas
      ensures ArenaOk(s', q)
    {
      RefillArena(s, d, p, q);
    }
    forall e | 0 <= e < DESC_CNT
      ensures ListOk(s', e)
    {
      RefillList(s, d, p, e);
    }
    forall b | b in s'.live
      ensures LiveOk(s', b)
    {
      assert LiveOk(s, b);
    }
    forall b
      ensures Settled(s', b)
    {
      assert Settled(s, b);
      BlocksOfPage(p, d, b);
    }
    assert s'.free[d] == AllBlocks(p, d);
  }

  // ---------- Handing out and taking back a small block ----------

  /** b is the front of the list of d. */
  ghost predicate Front(s: State, d: nat, b: nat) {
    && Shape(s) && d < DESC_CNT && s.free[d] != [] && s.free[d][0] == b
    && SmallAt(s, b, d) && b !in s.live && s.arenas[PageOf(b)].freeCnt > 0
    && b !in s.free[d][1..] && Distinct(s.free[d][1..])
  }

  lemma FrontIsFree(s: State, d: nat)
    requires Core(s) && d < DESC_CNT && s.free[d] != []
    ensures Front(s, d, s.free[d][0])
  {
    var b := s.free[d][0];
    assert ListOk(s, d) && b in s.free[d];
    assert Settled(s, b) && ArenaOk(s, PageOf(b));
  }

  lemma TakeArena(s: State, d: nat, b: nat, size: nat, q: nat)
    requires Front(s, d, b) && q in s.arenas && ArenaOk(s, q)
    ensures q in Taken(s, d, size).arenas && ArenaOk(Taken(s, d, size), q)
  {
    var s' := Taken(s, d, size);
    assert LiveOn(s', q) == LiveOn(s, q) + if q == PageOf(b) then {b} else {};
    assert OnPage(s.free[d], q) == (if q == PageOf(b) then 1 else 0) + OnPage(s.free[d][1..], q);
  }

  lemma TakeList(s: State, d: nat, b: nat, size: nat, e: nat)
    requires Front(s, d, b) && e < DESC_CNT && ListOk(s, e)
    ensures ListOk(Taken(s, d, size), e)
  {
    var s' := Taken(s, d, size);
    assert s.free[d] == [b] + s.free[d][1..];
    forall c | c in s'.free[e]
      ensures SmallAt(s', c, e)
    {
      assert c in s.free[e] && SmallAt(s, c, e);
    }
  }

  lemma TakeBlock(s: State, d: nat, b: nat, size: nat, c: nat)
    requires Front(s, d, b) && Settled(s, c)
    requires 0 < size <= BlockSize(d) && size < SIZE_RANGE && (c in s.live ==> LiveOk(s, c))
    ensures Settled(Taken(s, d, size), c) && (c in Taken(s, d, size).live ==> LiveOk(Taken(s, d, size), c))
  {
    var s' := Taken(s, d, size);
    assert s.free[d] == [b] + s.free[d][1..];
    assert forall e :: SmallAt(s', c, e) <==> SmallAt(s, c, e);
  }

  lemma TakeKeepsCore(s: State, d: nat, size: nat)
    requires Core(s) && d < DESC_CNT && s.free[d] != [] && 0 < size <= BlockSize(d) && size < SIZE_RANGE
    ensures Front(s, d, s.free[d][0])
    ensures Core(Taken(s, d, size))
  {
    FrontIsFree(s, d);
    var b, s' := s.free[d][0], Taken(s, d, size);
    StillApart(s, s');
    forall q | q in s'.arenas
      ensures ArenaOk(s', q)
    {
      TakeArena(s, d, b, size, q);
    }
    forall e | 0 <= e < DESC_CNT
      ensures ListOk(s', e)
    {
      TakeList(s, d, b, size, e);
    }
    forall c
      ensures Settled(s', c) && (c in s'.live ==> LiveOk(s', c))
    {
      assert Settled(s, c);
      TakeBlock(s, d, b, size, c);
    }
  }

  /** b is a small block that is handed out. */
  ghost predicate InUse(s: State, b: nat) {
    && Shape(s) && b in s.live && PageOf(b) in s.arenas && s.arenas[PageOf(b)].Small?
    && SmallAt(s, b, s.arenas[PageOf(b)].desc) && b !in s.free[s.arenas[PageOf(b)].desc]
  }

  lemma LiveIsInUse(s: State, b: nat)
    requires Core(s) && b in s.live
    ensures PageOf(b) in s.arenas && (s.arenas[PageOf(b)].Small? ==> InUse(s, b))
  {
    assert LiveOk(s, b) && Settled(s, b);
  }

  lemma PutArena(s: State, b: nat, q: nat)
    requires InUse(s, b) && q in s.arenas && ArenaOk(s, q)
    ensures q in Put(s, b).arenas && ArenaOk(Put(s, b), q)
  {
    var d := s.arenas[PageOf(b)].desc;
    var s' := Put(s, b);
    assert ([b] + s.free[d])[1..] == s.free[d];
    assert PageOf(BigBlock(q)) == q;
    assert LiveOn(s', q) == LiveOn(s, q) - {b};
    assert q == PageOf(b) <==> b in LiveOn(s, q);
  }

  lemma PutList(s: State, b: nat, e: nat)
    requires InUse(s, b) && e < DESC_CNT && ListOk(s, e)
    ensures ListOk(Put(s, b), e)
  {
    var s' := Put(s, b);
    if e == s.arenas[PageOf(b)].desc {
      ConsDistinct(b, s.free[e]);
    }
    forall c | c in s'.free[e]
      ensures SmallAt(s', c, e)
    {
      assert SmallAt(s, c, e);
    }
  }

  lemma PutBlock(s: State, b: nat, c: nat)
    requires InUse(s, b) && Settled(s, c) && (c in s.live ==> LiveOk(s, c))
    ensures Settled(Put(s, b), c) && (c in Put(s, b).live ==> LiveOk(Put(s, b), c))
  {
    var s' := Put(s, b);
    assert forall e :: SmallAt(s', c, e) <==> SmallAt(s, c, e);
  }

  lemma PutKeepsCore(s: State, b: nat)
    requires Core(s) && InUse(s, b)
    ensures Core(Put(s, b))
  {
    var s' := Put(s, b);
    StillApart(s, s');
    forall q | q in s'.arenas
      ensures ArenaOk(s', q)
    {
      PutArena(s, b, q);
    }
    forall e | 0 <= e < DESC_CNT
      ensures ListOk(s', e)
    {
      PutList(s, b, e);
    }
    forall c
      ensures Settled(s', c) && (c in s'.live ==> LiveOk(s', c))
    {
      assert Settled(s, c);
      PutBlock(s, b, c);
    }
  }

  // ---------- Taking an arena apart ----------

  /** All blocks of the small arena on page p are free. */
  ghost predicate AllFree(s: State, p: nat) {
    && Shape(s) && p in s.arenas && s.arenas[p].Small? && ArenaOk(s, p) && ListOk(s, s.arenas[p].desc)
    && s.arenas[p].freeCnt == BlocksPerArena(s.arenas[p].desc)
  }

  /** When the count says so, every block of the arena is on the list, and nothing else of that page is. */
  lemma AllFreeMeans(s: State, p: nat)
    requires Core(s) && AllFree(s, p)
    ensures forall b :: b in s.live ==> PageOf(b) != p
    ensures forall b :: b in BlockSet(p, s.arenas[p].desc, BlocksPerArena(s.arenas[p].desc)) ==>
            b in s.free[s.arenas[p].desc]
  {
    var d := s.arenas[p].desc;
    assert LiveOn(s, p) == {};
    forall b | b in s.live
      ensures PageOf(b) != p
    {
      assert b !in LiveOn(s, p);
    }
    forall b | b in BlockSet(p, d, BlocksPerArena(d))
      ensures b in s.free[d]
    {
      BlocksOfPage(p, d, b);
      assert Settled(s, b) && SmallAt(s, b, d);
    }
  }

  /** On the list of its descriptor, the blocks of p are exactly those on page p. */
  lemma GoneBlocks(s: State, p: nat, b: nat)
    requires AllFree(s, p) && b in s.free[s.arenas[p].desc]
    ensures b in BlockSet(p, s.arenas[p].desc, BlocksPerArena(s.arenas[p].desc)) <==> PageOf(b) == p
  {
    BlocksOfPage(p, s.arenas[p].desc, b);
    assert SmallAt(s, b, s.arenas[p].desc);
  }

  lemma DropArena(s: State, p: nat, q: nat)
    requires AllFree(s, p) && q in s.arenas && ArenaOk(s, q) && q != p && Clear(s, p, q) && Clear(s, q, p)
    requires BigBlock(q) in s.live ==> PageOf(BigBlock(q)) != p
    ensures s.base <= p < s.base + |s.used| && q in Dropped(s, p).arenas && ArenaOk(Dropped(s, p), q)
  {
    var s' := Dropped(s, p);
    var d := s.arenas[p].desc;
    forall b | b in s.free[d]
      ensures b in BlockSet(p, d, BlocksPerArena(d)) <==> PageOf(b) == p
    {
      GoneBlocks(s, p, b);
    }
    MinusPage(s.free[d], BlockSet(p, d, BlocksPerArena(d)), p, q);
    assert LiveOn(s', q) == LiveOn(s, q);
  }

  lemma DropList(s: State, p: nat, e: nat)
    requires AllFree(s, p) && e < DESC_CNT && ListOk(s, e)
    ensures s.base <= p < s.base + |s.used| && ListOk(Dropped(s, p), e)
  {
    var s' := Dropped(s, p);
    var d := s.arenas[p].desc;
    MinusKeeps(s.free[d], BlockSet(p, d, BlocksPerArena(d)));
    forall b | b in s'.free[e]
      ensures SmallAt(s', b, e)
    {
      assert SmallAt(s, b, e);
      if e == d {
        GoneBlocks(s, p, b);
      }
    }
  }

  lemma DropBlock(s: State, p: nat, b: nat)
    requires AllFree(s, p) && Settled(s, b) && (b in s.live ==> LiveOk(s, b) && PageOf(b) != p)
    ensures s.base <= p < s.base + |s.used|
    ensures Settled(Dropped(s, p), b) && (b in Dropped(s, p).live ==> LiveOk(Dropped(s, p), b))
  {
    var s' := Dropped(s, p);
    var d := s.arenas[p].desc;
    MinusKeeps(s.free[d], BlockSet(p, d, BlocksPerArena(d)));
    BlocksOfPage(p, d, b);
    assert forall e :: SmallAt(s', b, e) <==> SmallAt(s, b, e) && PageOf(b) != p;
  }

  lemma DropKeepsCore(s: State, p: nat)
    requires Core(s) && AllFree(s, p)
    ensures s.base <= p < s.base + |s.used| && Core(Dropped(s, p))
  {
    AllFreeMeans(s, p);
    assert ArenaOk(s, p);
    var s' := Dropped(s, p);
    StillApart(s, s');
    forall q | q in s'.arenas
      ensures ArenaOk(s', q)
    {
      assert Clear(s, p, q) && Clear(s, q, p);
      DropArena(s, p, q);
    }
    forall e | 0 <= e < DESC_CNT
      ensures ListOk(s', e)
    {
      DropList(s, p, e);
    }
    forall b
      ensures Settled(s', b) && (b in s'.live ==> LiveOk(s', b))
    {
      assert Settled(s, b);
      DropBlock(s, p, b);
    }
  }

  // ---------- Big blocks ----------

  lemma BigTakenArena(s: State, p: nat, n: nat, size: nat, q: nat)
    requires Shape(s) && s.base <= p && n > 0 && RunAt(s.used, p - s.base, n, false)
    requires q in s.arenas && ArenaOk(s, q) && (q + Span(s.arenas[q]) <= p || p + n <= q)
    ensures q in BigTaken(s, p, n, size).arenas && ArenaOk(BigTaken(s, p, n, size), q)
  {
    var s' := BigTaken(s, p, n, size);
    assert PageOf(BigBlock(p)) == p;
    assert LiveOn(s', q) == LiveOn(s, q);
  }

  lemma BigTakenBlock(s: State, p: nat, n: nat, size: nat, b: nat)
    requires Shape(s) && s.base <= p && n > 0 && RunAt(s.used, p - s.base, n, false) && p !in s.arenas
    requires BlockSize(DESC_CNT - 1) < size < SIZE_RANGE && n == PagesFor(size)
    requires Settled(s, b) && (b in s.live ==> LiveOk(s, b) && PageOf(b) != p)
    ensures Settled(BigTaken(s, p, n, size), b)
    ensures b in BigTaken(s, p, n, size).live ==> LiveOk(BigTaken(s, p, n, size), b)
  {
    var s' := BigTaken(s, p, n, size);
    assert PageOf(BigBlock(p)) == p;
    assert forall e :: SmallAt(s', b, e) <==> SmallAt(s, b, e);
  }

  lemma BigTakenKeepsCore(s: State, p: nat, n: nat, size: nat)
    requires Core(s) && s.base <= p && RunAt(s.used, p - s.base, n, false)
    requires BlockSize(DESC_CNT - 1) < size < SIZE_RANGE && n == PagesFor(size) > 0
    ensures Core(BigTaken(s, p, n, size))
  {
    var s' := BigTaken(s, p, n, size);
    FreePage(s, p, n);
    ApartWith(s, s', p, Big(n));
    forall q | q in s'.arenas
      ensures ArenaOk(s', q)
    {
      if q != p {
        BigTakenArena(s, p, n, size, q);
      }
    }
    forall e | 0 <= e < DESC_CNT
      ensures ListOk(s', e)
    {
      OtherArenas(s, s', p, e);
    }
    forall b
      ensures Settled(s', b) && (b in s'.live ==> LiveOk(s', b))
    {
      assert Settled(s, b);
      BigTakenBlock(s, p, n, size, b);
    }
  }

  /** A change to an arena that is not small leaves the lists in order. */
  lemma OtherArenas(s: State, s': State, p: nat, e: nat)
    requires Shape(s) && Shape(s') && e < DESC_CNT && s'.free == s.free && ListOk(s, e)
    requires p in s.arenas ==> s.arenas[p].Big?
    requires forall q :: q in s.arenas && q != p ==> q in s'.arenas && s'.arenas[q] == s.arenas[q]
    ensures ListOk(s', e)
  {
    forall b | b in s'.free[e]
      ensures SmallAt(s', b, e)
    {
      assert SmallAt(s, b, e);
    }
  }

  lemma BigFreedArena(s: State, b: nat, q: nat)
    requires Shape(s) && q in s.arenas && ArenaOk(s, q) && Clear(s, PageOf(b), q) && Clear(s, q, PageOf(b))
    requires PageOf(b) in s.arenas && s.arenas[PageOf(b)].Big? && ArenaOk(s, PageOf(b)) && q != PageOf(b)
    ensures q in BigFreed(s, b).arenas && ArenaOk(BigFreed(s, b), q)
  {
    var s' := BigFreed(s, b);
    assert PageOf(BigBlock(q)) == q;
    assert LiveOn(s', q) == LiveOn(s, q);
  }

  lemma BigFreedBlock(s: State, b: nat, c: nat)
    requires Shape(s) && b in s.live && PageOf(b) in s.arenas && s.arenas[PageOf(b)].Big? && ArenaOk(s, PageOf(b))
    requires LiveOk(s, b) && Settled(s, c) && (c in s.live ==> LiveOk(s, c))
    ensures Settled(BigFreed(s, b), c) && (c in BigFreed(s, b).live ==> LiveOk(BigFreed(s, b), c))
  {
    var s' := BigFreed(s, b);
    assert forall e :: SmallAt(s', c, e) <==> SmallAt(s, c, e);
  }

  lemma BigFreedKeepsCore(s: State, b: nat)
    requires Core(s) && b in s.live && PageOf(b) in s.arenas && s.arenas[PageOf(b)].Big?
    ensures b == BigBlock(PageOf(b)) && ArenaOk(s, PageOf(b))
    ensures Core(BigFreed(s, b))
  {
    assert LiveOk(s, b) && ArenaOk(s, PageOf(b));
    var s' := BigFreed(s, b);
    StillApart(s, s');
    forall q | q in s'.arenas
      ensures ArenaOk(s', q)
    {
      assert Clear(s, PageOf(b), q) && Clear(s, q, PageOf(b));
      BigFreedArena(s, b, q);
    }
    forall e | 0 <= e < DESC_CNT
      ensures ListOk(s', e)
    {
      OtherArenas(s, s', PageOf(b), e);
    }
    forall c
      ensures Settled(s', c) && (c in s'.live ==> LiveOk(s', c))
    {
      assert Settled(s, c);
      BigFreedBlock(s, b, c);
    }
  }

  // ---------- malloc and free ----------

  lemma FirstBlock(p: nat, d: nat)
    requires d < DESC_CNT
    ensures BlocksPerArena(d) > 0 && AllBlocks(p, d) != [] && AllBlocks(p, d)[0] == BlockAt(p, d, 0)
    ensures PageOf(BlockAt(p, d, 0)) == p
  {
    DescTable(d);
    BlockIsBlock(p, d, 0);
    FirstBlocksAre(p, d, BlocksPerArena(d));
  }

  /** The front of the list of d, and the state without it. */
  function FromList(s: State, d: nat, size: nat): (Option<nat>, State)
    requires Core(s) && d < DESC_CNT && s.free[d] != []
  {
    FrontIsFree(s, d);
    (Some(s.free[d][0]), Taken(s, d, size))
  }

  /** The first block of a new arena on page p. */
  function FromNewArena(s: State, d: nat, size: nat, p: nat): (Option<nat>, State)
    requires Core(s) && d < DESC_CNT && s.free[d] == [] && s.base <= p && RunAt(s.used, p - s.base, 1, false)
  {
    RefillKeepsCore(s, d, p);
    FirstBlock(p, d);
    FromList(Refilled(s, d, p), d, size)
  }

  /** A small request; a new arena goes to page i. */
  function MallocSmall(s: State, d: nat, size: nat, i: Option<nat>): (Option<nat>, State)
    requires Core(s) && d < DESC_CNT && (i.Some? ==> RunAt(s.used, i.value, 1, false))
  {
    if s.free[d] != [] then FromList(s, d, size)
    else if i.None? then (None, s)
    else FromNewArena(s, d, size, s.base + i.value)
  }

  /** A large request: whole pages, starting at i. */
  function MallocBig(s: State, size: nat, i: Option<nat>): (r: (Option<nat>, State))
    requires Shape(s) && size < SIZE_RANGE && (i.Some? ==> RunAt(s.used, i.value, PagesFor(size), false))
  {
    if PagesFor(size) == 0 || i.None? then (None, s)
    else (Some(BigBlock(s.base + i.value)), BigTaken(s, s.base + i.value, PagesFor(size), size))
  }

  /** `malloc`; nothing when memory is short or the request is for 0 bytes. */
  function Malloc(s: State, size: nat): (r: (Option<nat>, State))
    requires Inv(s) && size < SIZE_RANGE
  {
    var d := DescFor(0, size);
    if size == 0 then (None, s)
    else if d == DESC_CNT then MallocBig(s, size, FirstRun(s.used, 0, PagesFor(size), false))
    else MallocSmall(s, d, size, FirstRun(s.used, 0, 1, false))
  }

  /** `free` of a block that is handed out. */
  function Free(s: State, b: nat): (r: State)
    requires Inv(s) && b in s.live
  {
    LiveIsInUse(s, b);
    if s.arenas[PageOf(b)].Big? then
      BigFreedKeepsCore(s, b);
      BigFreed(s, b)
    else
      var s' := Put(s, b);
      PutKeepsCore(s, b);
      if s'.arenas[PageOf(b)].freeCnt >= BlocksPerArena(s'.arenas[PageOf(b)].desc) then
        CountIsAll(s', PageOf(b));
        Dropped(s', PageOf(b))
      else s'
  }

  /** The assertion in `free`: the count never exceeds the number of blocks. */
  lemma CountIsAll(s: State, p: nat)
    requires Core(s) && p in s.arenas && s.arenas[p].Small? && s.arenas[p].freeCnt >= BlocksPerArena(s.arenas[p].desc)
    ensures s.arenas[p].freeCnt == BlocksPerArena(s.arenas[p].desc) && AllFree(s, p) && s.base <= p < s.base + |s.used|
  {
    assert ArenaOk(s, p) && ListOk(s, s.arenas[p].desc);
  }

  lemma FromListKeepsInv(s: State, d: nat, size: nat)
    requires Inv(s) && d < DESC_CNT && s.free[d] != [] && 0 < size <= BlockSize(d) && size < SIZE_RANGE
    ensures Inv(FromList(s, d, size).1)
  {
    TakeKeepsCore(s, d, size);
    assert Busy(s, PageOf(s.free[d][0]));
    StillBusy(s, Taken(s, d, size), PageOf(s.free[d][0]));
  }

  /** The new arena loses a block at once, so it is not idle either. */
  lemma FromNewArenaKeepsInv(s: State, d: nat, size: nat, p: nat)
    requires Inv(s) && d < DESC_CNT && s.free[d] == [] && s.base <= p && RunAt(s.used, p - s.base, 1, false)
    requires 0 < size <= BlockSize(d) && size < SIZE_RANGE
    ensures Inv(FromNewArena(s, d, size, p).1)
  {
    RefillKeepsCore(s, d, p);
    FirstBlock(p, d);
    TakeKeepsCore(Refilled(s, d, p), d, size);
    StillBusy(s, Taken(Refilled(s, d, p), d, size), p);
  }

  /** What a small request comes to. */
  lemma SmallCases(s: State, d: nat, size: nat, i: Option<nat>) returns (r: (Option<nat>, State))
    requires Core(s) && d < DESC_CNT && (i.Some? ==> RunAt(s.used, i.value, 1, false))
    ensures r == MallocSmall(s, d, size, i)
    ensures r == if s.free[d] != [] then FromList(s, d, size)
                 else if i.Some? then FromNewArena(s, d, size, s.base + i.value) else (None, s)
  {
    r := MallocSmall(s, d, size, i);
  }

  lemma MallocSmallKeepsInv(s: State, d: nat, size: nat, i: Option<nat>)
    requires Inv(s) && d < DESC_CNT && (i.Some? ==> RunAt(s.used, i.value, 1, false))
    requires 0 < size <= BlockSize(d) && size < SIZE_RANGE
    ensures Inv(MallocSmall(s, d, size, i).1)
  {
    var r := SmallCases(s, d, size, i);
    if s.free[d] != [] {
      FromListKeepsInv(s, d, size);
    } else if i.Some? {
      FromNewArenaKeepsInv(s, d, size, s.base + i.value);
    }
    assert Inv(r.1);
  }

  lemma NewIsRefilled(s: State, d: nat, size: nat, p: nat)
    requires Core(s) && d < DESC_CNT && s.free[d] == [] && s.base <= p && RunAt(s.used, p - s.base, 1, false)
    ensures Core(Refilled(s, d, p)) && Refilled(s, d, p).free[d] != []
    ensures FromNewArena(s, d, size, p) == FromList(Refilled(s, d, p), d, size)
  {
    RefillKeepsCore(s, d, p);
    FirstBlock(p, d);
  }

  lemma MallocBigKeepsInv(s: State, size: nat)
    requires Inv(s) && BlockSize(DESC_CNT - 1) < size < SIZE_RANGE
    ensures Inv(MallocBig(s, size, FirstRun(s.used, 0, PagesFor(size), false)).1)
  {
    var i := FirstRun(s.used, 0, PagesFor(size), false);
    if PagesFor(size) > 0 && i.Some? {
      BigTakenKeepsCore(s, s.base + i.value, PagesFor(size), size);
      StillBusy(s, BigTaken(s, s.base + i.value, PagesFor(size), size), s.base + i.value);
    }
  }

  lemma MallocKeepsInv(s: State, size: nat)
    requires Inv(s) && size < SIZE_RANGE
    ensures Inv(Malloc(s, size).1)
  {
    var d := DescFor(0, size);
    if size > 0 && d == DESC_CNT {
      MallocBigKeepsInv(s, size);
    } else if size > 0 {
      MallocSmallKeepsInv(s, d, size, FirstRun(s.used, 0, 1, false));
    }
  }

  lemma FreeKeepsInv(s: State, b: nat)
    requires Inv(s) && b in s.live
    ensures Inv(Free(s, b))
  {
    LiveIsInUse(s, b);
    if s.arenas[PageOf(b)].Big? {
      BigFreedKeepsCore(s, b);
    } else {
      PutKeepsCore(s, b);
      var s' := Put(s, b);
      if s'.arenas[PageOf(b)].freeCnt >= BlocksPerArena(s'.arenas[PageOf(b)].desc) {
        CountIsAll(s', PageOf(b));
        DropKeepsCore(s', PageOf(b));
      }
    }
    StillBusy(s, Free(s, b), PageOf(b));
  }

  // ---------- What the invariant means for callers ----------

  /** `block_size`: the bytes behind a block. */
  function Capacity(s: State, b: nat): int
    requires PageOf(b) in s.arenas
  {
    match s.arenas[PageOf(b)]
    case Small(d, _) => BlockSize(d)
    case Big(n) => n * PAGE_SIZE - b % PAGE_SIZE
  }

  /** A live block begins after its arena's header and ends within the pages of its arena. */
  lemma LiveInside(s: State, b: nat)
    requires Inv(s) && b in s.live
    ensures PageOf(b) in s.arenas && s.base <= PageOf(b)
    ensures PageOf(b) * PAGE_SIZE + ARENA_HEADER <= b
    ensures b + Capacity(s, b) <= (PageOf(b) + Span(s.arenas[PageOf(b)])) * PAGE_SIZE
    ensures PageOf(b) + Span(s.arenas[PageOf(b)]) <= s.base + |s.used|
    ensures s.arenas[PageOf(b)].Big? ==> b % PAGE_SIZE == ARENA_HEADER
    ensures s.arenas[PageOf(b)].Small? ==> (b % PAGE_SIZE - ARENA_HEADER) % BlockSize(s.arenas[PageOf(b)].desc) == 0
  {
    assert LiveOk(s, b) && ArenaOk(s, PageOf(b));
    if s.arenas[PageOf(b)].Small? {
      BlockIsAligned(b, s.arenas[PageOf(b)].desc);
    }
  }

  /** The bytes of a live block within the pool. */
  lemma LiveInPool(s: State, b: nat)
    requires Inv(s) && b in s.live
    ensures PageOf(b) in s.arenas
    ensures 0 <= b - s.base * PAGE_SIZE <= b - s.base * PAGE_SIZE + Capacity(s, b) <= |s.used| * PAGE_SIZE
  {
    LiveInside(s, b);
    assert LiveOk(s, b) && ArenaOk(s, PageOf(b));
  }

  /** Live blocks never overlap. */
  lemma LiveApart(s: State, b: nat, c: nat)
    requires Inv(s) && b in s.live && c in s.live && b < c
    ensures PageOf(b) in s.arenas && b + Capacity(s, b) <= c
  {
    LiveInside(s, b);
    LiveInside(s, c);
    assert LiveOk(s, b) && LiveOk(s, c);
    if PageOf(b) == PageOf(c) {
      BlocksApart(b, c, s.arenas[PageOf(b)].desc);
    } else {
      assert Clear(s, PageOf(b), PageOf(c));
    }
  }

  /** No live block touches the header of any arena. */
  lemma LiveOffHeaders(s: State, b: nat, p: nat)
    requires Inv(s) && b in s.live && p in s.arenas
    ensures PageOf(b) in s.arenas
    ensures b + Capacity(s, b) <= p * PAGE_SIZE || p * PAGE_SIZE + ARENA_HEADER <= b
  {
    LiveInside(s, b);
    assert ArenaOk(s, p);
    assert Clear(s, p, PageOf(b)) && Clear(s, PageOf(b), p);
  }

  /**
   * Whole pages cover the request exactly when adding the header does not wrap; for the sizes just below, rounding up
   * wraps to no page at all, and `malloc` fails.
   */
  lemma PagesCover(size: nat)
    requires size < SIZE_RANGE
    ensures PagesFor(size) == 0 <==> SIZE_RANGE - ARENA_HEADER - PAGE_SIZE < size <= SIZE_RANGE - ARENA_HEADER
    ensures PagesFor(size) > 0 ==>
              (size <= PagesFor(size) * PAGE_SIZE - ARENA_HEADER <==> size <= SIZE_RANGE - ARENA_HEADER)
    ensures size > SIZE_RANGE - ARENA_HEADER ==> PagesFor(size) == 1
    ensures PagesFor(size) > 1 ==> (PagesFor(size) - 1) * PAGE_SIZE < size + ARENA_HEADER
  {
  }

  /** A block for a request whose size plus the header wraps is what is behind the header of one page. */
  lemma WrappedCapacity(s: State, b: nat)
    requires Inv(s) && b in s.live && s.live[b] > SIZE_RANGE - ARENA_HEADER
    ensures PageOf(b) in s.arenas && Capacity(s, b) == PAGE_SIZE - ARENA_HEADER
  {
    assert LiveOk(s, b) && ArenaOk(s, PageOf(b));
    DescTable(DESC_CNT - 1);
    LiveInside(s, b);
    PagesCover(s.live[b]);
    match s.arenas[PageOf(b)]
    case Small(d, _) => DescTable(d);
    case Big(_) =>
  }

  /** A live block holds the bytes asked for, if and only if the size plus the header fits 32 bits. */
  lemma LiveLargeEnough(s: State, b: nat)
    requires Inv(s) && b in s.live
    ensures PageOf(b) in s.arenas && (s.live[b] <= Capacity(s, b) <==> s.live[b] <= SIZE_RANGE - ARENA_HEADER)
  {
    assert LiveOk(s, b) && ArenaOk(s, PageOf(b));
    match s.arenas[PageOf(b)]
    case Small(d, _) => DescTable(d);
    case Big(_) => PagesCover(s.live[b]);
  }

  /**
   * Every block of a small arena is on its descriptor's list, handed out, but never both; the header counts the first.
   */
  lemma BlocksAccounted(s: State, p: nat, b: nat)
    requires Inv(s) && p in s.arenas && s.arenas[p].Small?
    ensures s.arenas[p].freeCnt == OnPage(s.free[s.arenas[p].desc], p) < BlocksPerArena(s.arenas[p].desc)
    ensures PageOf(b) == p && IsBlock(b, s.arenas[p].desc) ==> (b in s.live <==> b !in s.free[s.arenas[p].desc])
    ensures b in s.live && PageOf(b) == p ==> IsBlock(b, s.arenas[p].desc)
  {
    assert ArenaOk(s, p) && Settled(s, b) && Busy(s, p);
    assert PageOf(b) == p && IsBlock(b, s.arenas[p].desc) ==> SmallAt(s, b, s.arenas[p].desc);
    assert b in s.live ==> LiveOk(s, b);
  }

  /** Freeing one block leaves the arenas of all others in place, with their capacities. */
  lemma FreeLeavesOthers(s: State, b: nat, c: nat)
    requires Inv(s) && b in s.live && c in Free(s, b).live
    ensures c in s.live && c != b && PageOf(c) in s.arenas && PageOf(c) in Free(s, b).arenas
    ensures Capacity(Free(s, b), c) == Capacity(s, c) && Free(s, b).base == s.base && |Free(s, b).used| == |s.used|
    ensures PageOf(b) !in Free(s, b).arenas ==> PageOf(c) != PageOf(b)
  {
    FreeKeepsInv(s, b);
    assert LiveOk(Free(s, b), c) && LiveOk(s, b);
    LiveIsInUse(s, b);
  }

  lemma ArenasApart(s: State, p: nat, q: nat)
    requires Inv(s) && p in s.arenas && q in s.arenas && p != q
    ensures p + Span(s.arenas[p]) <= q || q + Span(s.arenas[q]) <= p
  {
    assert Clear(s, p, q) && Clear(s, q, p);
  }

  /** What `free` overwrites is the block, or all pages of an arena that goes; other live blocks lie outside. */
  lemma FreeTouches(s: State, b: nat, c: nat)
    requires Inv(s) && b in s.live && c in Free(s, b).live
    ensures c in s.live && PageOf(c) in s.arenas && PageOf(b) in s.arenas
    ensures PageOf(b) in Free(s, b).arenas ==> b + Capacity(s, b) <= c || c + Capacity(s, c) <= b
    ensures PageOf(b) !in Free(s, b).arenas ==>
              || (PageOf(b) + Span(s.arenas[PageOf(b)])) * PAGE_SIZE <= c
              || c + Capacity(s, c) <= PageOf(b) * PAGE_SIZE
  {
    FreeLeavesOthers(s, b, c);
    LiveInside(s, b);
    LiveInside(s, c);
    LiveApart(s, if b < c then b else c, if b < c then c else b);
    if PageOf(b) !in Free(s, b).arenas {
      ArenasApart(s, PageOf(b), PageOf(c));
    }
  }

  // ---------- Round trip ----------

  /** If r is a successful allocation from s, then freeing the block gives s back. */
  ghost predicate Undone(s: State, r: (Option<nat>, State)) {
    r.0.Some? ==> Inv(r.1) && r.0.value in r.1.live && Free(r.1, r.0.value) == s
  }

  lemma ListRoundTrip(s: State, d: nat, size: nat)
    requires Inv(s) && d < DESC_CNT && s.free[d] != [] && 0 < size <= BlockSize(d) && size < SIZE_RANGE
    ensures Undone(s, FromList(s, d, size))
  {
    FromListKeepsInv(s, d, size);
    FrontIsFree(s, d);
    assert Busy(s, PageOf(s.free[d][0]));
    var b, s' := s.free[d][0], FromList(s, d, size).1;
    assert [b] + s.free[d][1..] == s.free[d];
    assert Put(s', b).free == s.free;
    assert Put(s', b).arenas == s.arenas;
    assert Put(s', b).live == s.live;
  }

  /** A new arena that gets its only block back is all free, so it is taken apart again. */
  lemma ArenaRoundTrip(s: State, d: nat, size: nat, p: nat)
    requires Inv(s) && d < DESC_CNT && s.free[d] == [] && s.base <= p && RunAt(s.used, p - s.base, 1, false)
    requires 0 < size <= BlockSize(d) && size < SIZE_RANGE
    ensures Undone(s, FromNewArena(s, d, size, p))
  {
    FromNewArenaKeepsInv(s, d, size, p);
    RefillKeepsCore(s, d, p);
    FreePage(s, p, 1);
    FirstBlock(p, d);
    var r := Refilled(s, d, p);
    FrontIsFree(r, d);
    var b, s' := r.free[d][0], FromNewArena(s, d, size, p).1;
    assert [b] + r.free[d][1..] == r.free[d];
    assert Put(s', b).free == r.free;
    assert Put(s', b).arenas == r.arenas;
    assert Put(s', b).live == s.live;
    assert Put(s', b) == r;
    UndoRefill(s, d, p);
  }

  lemma UndoRefill(s: State, d: nat, p: nat)
    requires Core(s) && d < DESC_CNT && s.free[d] == [] && p !in s.arenas
    requires s.base <= p && RunAt(s.used, p - s.base, 1, false)
    ensures Dropped(Refilled(s, d, p), p) == s
  {
    var r := Refilled(s, d, p);
    FlipAndBack(s.used, p - s.base, 1, false);
    forall a | a in r.free[d]
      ensures a in BlockSet(p, d, BlocksPerArena(d))
    {
      BlocksOfPage(p, d, a);
    }
    MinusAll(r.free[d], BlockSet(p, d, BlocksPerArena(d)));
    assert Dropped(r, p).free == s.free;
    assert Dropped(r, p).arenas == s.arenas;
  }

  lemma UndoBig(s: State, p: nat, n: nat, size: nat)
    requires Shape(s) && p !in s.arenas && BigBlock(p) !in s.live && s.base <= p && RunAt(s.used, p - s.base, n, false)
    ensures PageOf(BigBlock(p)) == p && BigFreed(BigTaken(s, p, n, size), BigBlock(p)) == s
  {
    FlipAndBack(s.used, p - s.base, n, false);
    var b, s' := BigBlock(p), BigTaken(s, p, n, size);
    assert s'.arenas - {p} == s.arenas;
    assert s'.live - {b} == s.live;
  }

  lemma BigRoundTrip(s: State, size: nat, i: Option<nat>)
    requires Inv(s) && BlockSize(DESC_CNT - 1) < size < SIZE_RANGE && PagesFor(size) > 0
    requires i.Some? && RunAt(s.used, i.value, PagesFor(size), false)
    ensures Undone(s, MallocBig(s, size, i))
  {
    var p, n := s.base + i.value, PagesFor(size);
    BigTakenKeepsCore(s, p, n, size);
    StillBusy(s, BigTaken(s, p, n, size), p);
    FreePage(s, p, n);
    UndoBig(s, p, n, size);
  }

  /** Each way to satisfy a request can be taken back. */
  lemma UndoneSmall(s: State, d: nat, size: nat, i: Option<nat>, r: (Option<nat>, State))
    requires Inv(s) && d < DESC_CNT && (i.Some? ==> RunAt(s.used, i.value, 1, false))
    requires 0 < size <= BlockSize(d) && size < SIZE_RANGE
    requires s.free[d] != [] ==> r == FromList(s, d, size)
    requires s.free[d] == [] && i.Some? ==> r == FromNewArena(s, d, size, s.base + i.value)
    requires s.free[d] == [] && i.None? ==> r.0.None?
    ensures Undone(s, r)
  {
    if s.free[d] != [] {
      ListRoundTrip(s, d, size);
    } else if i.Some? {
      ArenaRoundTrip(s, d, size, s.base + i.value);
    }
  }

  /** `free` undoes `malloc` completely: lists, counts, arenas and the page map are what they were. */
  lemma FreeUndoesMalloc(s: State, size: nat) returns (r: (Option<nat>, State))
    requires Inv(s) && size < SIZE_RANGE
    ensures r == Malloc(s, size) && Undone(s, r)
  {
    r := Malloc(s, size);
    var d := DescFor(0, size);
    if size == 0 {
    } else if d == DESC_CNT {
      var i := FirstRun(s.used, 0, PagesFor(size), false);
      if PagesFor(size) > 0 && i.Some? {
        BigRoundTrip(s, size, i);
      }
    } else {
      var i := FirstRun(s.used, 0, 1, false);
      r := SmallCases(s, d, size, i);
      UndoneSmall(s, d, size, i, r);
    }
  }

  /** `malloc` leaves all other live blocks where they are, with their capacities. */
  lemma MallocLeavesOthers(s: State, size: nat, c: nat)
    requires Inv(s) && size < SIZE_RANGE && c in s.live
    ensures var s' := Malloc(s, size).1;
            && c in s'.live && PageOf(c) in s.arenas && PageOf(c) in s'.arenas && Capacity(s', c) == Capacity(s, c)
            && s'.base == s.base && |s'.used| == |s.used|
    ensures Malloc(s, size).0 != Some(c)
  {
    LiveIsInUse(s, c);
    var r := FreeUndoesMalloc(s, size);
    var (b, s') := r;
    if b.Some? {
      FreeLeavesOthers(s', b.value, c);
    } else {
      NothingChanges(s, size);
    }
  }

  /** A failed `malloc` has no effect. */
  lemma NothingChanges(s: State, size: nat)
    requires Inv(s) && size < SIZE_RANGE && Malloc(s, size).0.None?
    ensures Malloc(s, size).1 == s
  {
    var d := DescFor(0, size);
    if 0 < size && d < DESC_CNT {
      var r := SmallCases(s, d, size, FirstRun(s.used, 0, 1, false));
    }
  }

  /** A successful one makes the block live with the size asked for. */
  lemma MallocAdds(s: State, size: nat)
    requires Inv(s) && size < SIZE_RANGE && Malloc(s, size).0.Some?
    ensures var (b, s') := Malloc(s, size); Inv(s') && b.value in s'.live && s'.live == s.live[b.value := size]
  {
    MallocKeepsInv(s, size);
    var d := DescFor(0, size);
    if d < DESC_CNT {
      var r := SmallCases(s, d, size, FirstRun(s.used, 0, 1, false));
    }
  }

  lemma BigOutcome(s: State, size: nat, r: (Option<nat>, State))
    requires Inv(s) && 0 < size < SIZE_RANGE && DescFor(0, size) == DESC_CNT
    requires r == MallocBig(s, size, FirstRun(s.used, 0, PagesFor(size), false))
    ensures r == Malloc(s, size) && Inv(r.1)
  {
    MallocKeepsInv(s, size);
  }

  lemma SmallOutcome(s: State, size: nat, d: nat, i: Option<nat>, r: (Option<nat>, State))
    requires Inv(s) && 0 < size < SIZE_RANGE && d == DescFor(0, size) < DESC_CNT && i == FirstRun(s.used, 0, 1, false)
    requires r == if s.free[d] != [] then FromList(s, d, size)
                  else if i.Some? then FromNewArena(s, d, size, s.base + i.value)
                  else (None, s)
    ensures r == Malloc(s, size) && Inv(r.1)
  {
    var r' := SmallCases(s, d, size, i);
    MallocKeepsInv(s, size);
  }

  lemma UsedLength(s: State, size: nat)
    requires Inv(s) && size < SIZE_RANGE
    ensures Malloc(s, size).1.base == s.base && |Malloc(s, size).1.used| == |s.used|
  {
    var d := DescFor(0, size);
    if 0 < size && d < DESC_CNT {
      var r := SmallCases(s, d, size, FirstRun(s.used, 0, 1, false));
    }
  }

  lemma FreeRemoves(s: State, b: nat)
    requires Inv(s) && b in s.live
    ensures Free(s, b).live == s.live - {b}
  {
    LiveIsInUse(s, b);
  }

  // ---------- Runs ----------

  /** OpTakePages and OpGivePages are others who use the same pool: threads and page tables. */
  datatype Op = OpMalloc(size: nat) | OpFree(b: nat) | OpTakePages(i: nat, n: nat) | OpGivePages(i: nat, n: nat)

  /** Page x lies in the arena on page p. */
  predicate Owns(s: State, p: nat, x: nat) {
    p in s.arenas && p <= x < p + Span(s.arenas[p])
  }

  /** Callers free only what they were given, and others give back only pages that no arena has; sizes are 32-bit. */
  ghost predicate Enabled(s: State, op: Op) {
    match op
    case OpMalloc(size) => size < SIZE_RANGE
    case OpFree(b) => b in s.live
    case OpTakePages(i, n) => RunAt(s.used, i, n, false)
    case OpGivePages(i, n) =>
      RunAt(s.used, i, n, true) && forall p: nat, x: nat :: i <= x - s.base < i + n ==> !Owns(s, p, x)
  }

  ghost function Step(s: State, op: Op): State
    requires Inv(s) && Enabled(s, op)
  {
    match op
    case OpMalloc(size) => Malloc(s, size).1
    case OpFree(b) => Free(s, b)
    case OpTakePages(i, n) => s.(used := SetRange(s.used, i, n, true))
    case OpGivePages(i, n) => s.(used := SetRange(s.used, i, n, false))
  }

  /** s' differs from s only in pages that no arena of s has. */
  ghost predicate OthersPages(s: State, s': State) {
    && s' == s.(used := s'.used) && |s'.used| == |s.used|
    && forall p: nat, x: nat :: Owns(s, p, x) && s.base <= x < s.base + |s.used| ==>
        s'.used[x - s.base] == s.used[x - s.base]
  }

  lemma TakePages(s: State, i: nat, n: nat)
    requires Inv(s) && RunAt(s.used, i, n, false)
    ensures OthersPages(s, s.(used := SetRange(s.used, i, n, true)))
  {
    forall p: nat, x: nat | Owns(s, p, x) && s.base <= x < s.base + |s.used|
      ensures s.used[x - s.base]
    {
      assert ArenaOk(s, p);
      UsedPage(s, p, x);
    }
  }

  lemma ArenaKept(s: State, s': State, p: nat)
    requires Core(s) && OthersPages(s, s') && p in s.arenas
    ensures ArenaOk(s', p)
  {
    assert ArenaOk(s, p);
    assert LiveOn(s', p) == LiveOn(s, p);
    forall k | p - s.base <= k < p - s.base + Span(s.arenas[p])
      ensures 0 <= k < |s.used| && s'.used[k]
    {
      UsedPage(s, p, k + s.base);
      assert Owns(s, p, k + s.base);
    }
  }

  lemma OthersKeepInv(s: State, s': State)
    requires Inv(s) && OthersPages(s, s')
    ensures Inv(s')
  {
    StillApart(s, s');
    forall p | p in s'.arenas
      ensures ArenaOk(s', p)
    {
      ArenaKept(s, s', p);
    }
    forall d | 0 <= d < DESC_CNT
      ensures ListOk(s', d)
    {
      assert ListOk(s, d);
      forall b | b in s'.free[d]
        ensures SmallAt(s', b, d)
      {
        assert SmallAt(s, b, d);
      }
    }
    forall b
      ensures Settled(s', b) && (b in s'.live ==> LiveOk(s', b))
    {
      assert Settled(s, b) && (b in s.live ==> LiveOk(s, b));
      assert forall d :: SmallAt(s', b, d) <==> SmallAt(s, b, d);
    }
    forall p
      ensures Busy(s', p)
    {
      assert Busy(s, p);
    }
  }

  lemma OthersStep(s: State, op: Op)
    requires Inv(s) && Enabled(s, op) && (op.OpTakePages? || op.OpGivePages?)
    ensures OthersPages(s, Step(s, op))
    ensures forall k :: 0 <= k < |s.used| ==>
              (Step(s, op).used[k] <==> if op.i <= k < op.i + op.n then op.OpTakePages? else s.used[k])
  {
    if op.OpTakePages? {
      TakePages(s, op.i, op.n);
    }
  }

  lemma StepKeepsInv(s: State, op: Op)
    requires Inv(s) && Enabled(s, op)
    ensures Inv(Step(s, op))
  {
    match op
    case OpMalloc(size) => MallocKeepsInv(s, size);
    case OpFree(b) => FreeKeepsInv(s, b);
    case OpTakePages(_, _) => OthersStep(s, op); OthersKeepInv(s, Step(s, op));
    case OpGivePages(_, _) => OthersStep(s, op); OthersKeepInv(s, Step(s, op));
  }

  ghost predicate Runs(s: State, ops: seq<Op>, s': State)
    requires Inv(s)
    decreases |ops|
  {
    if ops == [] then s' == s
    else Enabled(s, ops[0]) && (StepKeepsInv(s, ops[0]); Runs(Step(s, ops[0]), ops[1..], s'))
  }

  /** No arenas, empty lists, all pages of the pool free. */
  function Initial(base: nat, pages: nat): (s: State)
    requires base > 0
    ensures Inv(s)
  {
    State(base, seq(pages, _ => false), map[], seq(DESC_CNT, _ => []), map[])
  }

  lemma {:induction false} RunKeepsInv(s: State, ops: seq<Op>, s': State)
    requires Inv(s) && Runs(s, ops, s')
    ensures Inv(s')
    decreases |ops|
  {
    if ops != [] {
      StepKeepsInv(s, ops[0]);
      RunKeepsInv(Step(s, ops[0]), ops[1..], s');
    }
  }

  /**
   * What a caller relies on between `malloc` and `free`: the block, its request and the bytes behind it are the same.
   */
  ghost predicate Stays(s: State, s': State, b: nat) {
    && b in s.live && b in s'.live && s'.live[b] == s.live[b]
    && PageOf(b) in s.arenas && PageOf(b) in s'.arenas && Capacity(s', b) == Capacity(s, b)
  }

  lemma MallocStays(s: State, size: nat, b: nat)
    requires Inv(s) && size < SIZE_RANGE && b in s.live
    ensures Stays(s, Malloc(s, size).1, b)
  {
    MallocLeavesOthers(s, size, b);
    if Malloc(s, size).0.Some? {
      MallocAdds(s, size);
    } else {
      NothingChanges(s, size);
    }
  }

  lemma StepStays(s: State, op: Op, b: nat)
    requires Inv(s) && Enabled(s, op) && b in s.live && op != OpFree(b)
    ensures Stays(s, Step(s, op), b)
  {
    match op
    case OpMalloc(size) => MallocStays(s, size, b);
    case OpFree(c) =>
      FreeRemoves(s, c);
      FreeLeavesOthers(s, c, b);
    case _ => LiveInside(s, b);
  }

  /** In every run a live block stays where it is, with its capacity, until it is freed itself. */
  lemma {:induction false} BlockStays(s: State, ops: seq<Op>, s': State, b: nat)
    requires Inv(s) && Runs(s, ops, s') && b in s.live && OpFree(b) !in ops
    ensures Stays(s, s', b)
    decreases |ops|
  {
    if ops == [] {
      LiveInside(s, b);
    } else {
      StepKeepsInv(s, ops[0]);
      StepStays(s, ops[0], b);
      BlockStays(Step(s, ops[0]), ops[1..], s', b);
    }
  }

  /** In a fresh pool a request close to 4 GB succeeds, with a single page. */
  lemma PagesWrap(base: nat)
    requires base > 0
    ensures var (b, s) := Malloc(Initial(base, 1), SIZE_RANGE - 11);
            b == Some(BigBlock(base)) && s.live[BigBlock(base)] == SIZE_RANGE - 11 && PageOf(BigBlock(base)) in s.arenas
            && Capacity(s, BigBlock(base)) == PAGE_SIZE - ARENA_HEADER
  {
    DescTable(DESC_CNT - 1);
    assert DescFor(0, SIZE_RANGE - 11) == DESC_CNT;
    assert PagesFor(SIZE_RANGE - 11) == 1;
  }

  // ---------- When malloc succeeds ----------

  ghost predicate HasRun(used: seq<bool>, n: nat) {
    exists j: nat :: RunAt(used, j, n, false)
  }

  lemma RunFound(used: seq<bool>, n: nat)
    ensures FirstRun(used, 0, n, false).Some? <==> HasRun(used, n)
  {
    if HasRun(used, n) {
      var j: nat :| RunAt(used, j, n, false);
      assert FirstRun(used, 0, n, false).Some?;
    }
  }

  lemma DescForIs(size: nat, d: nat)
    requires d < DESC_CNT && size <= BlockSize(d) && (d > 0 ==> BlockSize(d - 1) < size)
    ensures DescFor(0, size) == d
  {
    var e := DescFor(0, size);
    DescTable(d);
    if e > d {
      DescForLeast(0, size, d);
    } else if e < d {
      DescTable(e);
      DescTable(d - 1);
    }
  }

  /** A small request succeeds exactly if its descriptor has a free block or there is a free page. */
  lemma SmallOkIff(s: State, size: nat, d: nat)
    requires Inv(s) && d < DESC_CNT && 0 < size <= BlockSize(d) && (d > 0 ==> BlockSize(d - 1) < size)
    ensures size < SIZE_RANGE && (Malloc(s, size).0.Some? <==> s.free[d] != [] || HasRun(s.used, 1))
  {
    DescTable(d);
    DescForIs(size, d);
    RunFound(s.used, 1);
    var r := SmallCases(s, d, size, FirstRun(s.used, 0, 1, false));
  }

  /** A large one exactly if there are enough free pages in a row. */
  lemma BigOkIff(s: State, size: nat)
    requires Inv(s) && 1024 < size < SIZE_RANGE
    ensures Malloc(s, size).0.Some? <==> PagesFor(size) > 0 && HasRun(s.used, PagesFor(size))
  {
    var e := DescFor(0, size);
    if e < DESC_CNT {
      DescTable(e);
    }
    RunFound(s.used, PagesFor(size));
  }

  // ---------- What realloc needs ----------

  /** A caller of `realloc` can tell beforehand whether the old bytes fit: the size does not wrap, or they are few. */
  predicate CopyFits(s: State, b: nat, newSize: nat)
    requires PageOf(b) in s.arenas
  {
    newSize <= SIZE_RANGE - ARENA_HEADER || Capacity(s, b) <= PAGE_SIZE - ARENA_HEADER
  }

  /** What `realloc` copies stays inside the new block if and only if that holds. */
  lemma CopyFitsIff(s: State, b: nat, newSize: nat)
    requires Inv(s) && b in s.live && 0 < newSize < SIZE_RANGE && Malloc(s, newSize).0.Some?
    ensures var (r, s') := Malloc(s, newSize);
            && PageOf(b) in s.arenas && PageOf(b) in s'.arenas && PageOf(r.value) in s'.arenas
            && (Min(newSize, Capacity(s', b)) <= Capacity(s', r.value) <==> CopyFits(s, b, newSize))
  {
    var s' := Malloc(s, newSize).1;
    var c := Malloc(s, newSize).0.value;
    MallocStays(s, newSize, b);
    MallocAdds(s, newSize);
    LiveLargeEnough(s', c);
    if newSize > SIZE_RANGE - ARENA_HEADER {
      WrappedCapacity(s', c);
    }
  }

  /** In a fresh pool of three pages, enlarging a block of 5000 bytes to 2^32 - 11 copies 8180 bytes over 4084. */
  lemma CopyOverruns(base: nat) returns (b: nat, s: State, c: nat, s': State)
    requires base > 0
    ensures Malloc(Initial(base, 3), 5000) == (Some(b), s) && Inv(s) && Malloc(s, SIZE_RANGE - 11) == (Some(c), s')
    ensures b in s.live && PageOf(b) in s.arenas && Capacity(s, b) == 8180
    ensures PageOf(c) in s'.arenas && Capacity(s', c) == 4084 && !CopyFits(s, b, SIZE_RANGE - 11)
  {
    DescTable(DESC_CNT - 1);
    var s0 := Initial(base, 3);
    assert DescFor(0, 5000) == DESC_CNT && PagesFor(5000) == 2;
    assert RunAt(s0.used, 0, 2, false);
    b, s := BigBlock(base), Malloc(s0, 5000).1;
    MallocKeepsInv(s0, 5000);
    MallocAdds(s0, 5000);
    assert DescFor(0, SIZE_RANGE - 11) == DESC_CNT && PagesFor(SIZE_RANGE - 11) == 1;
    assert RunAt(s.used, 2, 1, false);
    var r := Malloc(s, SIZE_RANGE - 11);
    MallocAdds(s, SIZE_RANGE - 11);
    c, s' := r.0.value, r.1;
    WrappedCapacity(s', c);
  }

  /**
   * After any sequence of calls, with others using the same pages in between: live blocks do not overlap, lie outside
   * every arena header, and hold what was asked for unless the size plus the header wraps; the assertions of
   * `block_to_arena` hold for them; a small arena's count is that of its blocks on the list, and no small arena is kept
   * all free.
   */
  lemma ReachableIsSafe(base: nat, pages: nat, ops: seq<Op>, s: State, b: nat, c: nat, p: nat)
    requires base > 0 && Runs(Initial(base, pages), ops, s)
    ensures Inv(s)
    ensures b in s.live ==>
              PageOf(b) in s.arenas && (s.live[b] <= Capacity(s, b) <==> s.live[b] <= SIZE_RANGE - ARENA_HEADER)
    ensures b in s.live ==>
              match s.arenas[PageOf(b)]
              case Small(d, _) => (b % PAGE_SIZE - ARENA_HEADER) % BlockSize(d) == 0
              case Big(_) => b % PAGE_SIZE == ARENA_HEADER
    ensures b in s.live && c in s.live && b < c ==> b + Capacity(s, b) <= c
    ensures b in s.live && p in s.arenas ==> b + Capacity(s, b) <= p * PAGE_SIZE || p * PAGE_SIZE + ARENA_HEADER <= b
    ensures p in s.arenas && s.arenas[p].Small? ==>
              && s.arenas[p].desc < |s.free|
              && s.arenas[p].freeCnt == OnPage(s.free[s.arenas[p].desc], p) < BlocksPerArena(s.arenas[p].desc)
  {
    RunKeepsInv(Initial(base, pages), ops, s);
    if b in s.live {
      LiveLargeEnough(s, b);
      LiveInside(s, b);
      if c in s.live && b < c {
        LiveApart(s, b, c);
      }
      if p in s.arenas {
        LiveOffHeaders(s, b, p);
      }
    }
    if p in s.arenas && s.arenas[p].Small? {
      BlocksAccounted(s, p, b);
    }
  }
}
