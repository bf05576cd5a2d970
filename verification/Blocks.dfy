/** Descriptors, the addresses of blocks inside an arena, and lists of blocks (threads/malloc.c). */
module Blocks {
  import opened Common

  const ARENA_HEADER: nat := 12
  const DESC_CNT: nat := 7
  const SIZE_RANGE: nat := 0x1_0000_0000

  // ---------- Descriptors ----------

  /** Block sizes are the powers of two from 16 up to, and not including, half a page. */
  function BlockSize(d: nat): (r: nat)
    ensures r >= 16
  {
    if d == 0 then 16 else 2 * BlockSize(d - 1)
  }

  /** The blocks that fit in a page after the header: each size holds half as many as the one before. */
  function BlocksPerArena(d: nat): nat {
    if d == 0 then (PAGE_SIZE - ARENA_HEADER) / 16 else BlocksPerArena(d - 1) / 2
  }

  lemma DescTable(d: nat)
    requires d < DESC_CNT
    ensures (BlockSize(d), BlocksPerArena(d)) ==
              if d == 0 then (16, 255) else if d == 1 then (32, 127) else if d == 2 then (64, 63)
              else if d == 3 then (128, 31)
              else if d == 4 then (256, 15) else if d == 5 then (512, 7) else (1024, 3)
    ensures BlocksPerArena(d) == (PAGE_SIZE - ARENA_HEADER) / BlockSize(d)
  {
    assert BlockSize(0) == 16;
    assert BlockSize(1) == 32;
    assert BlockSize(2) == 64;
    assert BlockSize(3) == 128;
    assert BlockSize(4) == 256;
    assert BlockSize(5) == 512;
    assert BlockSize(6) == 1024;
    assert BlocksPerArena(0) == 255;
    assert BlocksPerArena(1) == 127;
    assert BlocksPerArena(2) == 63;
    assert BlocksPerArena(3) == 31;
    assert BlocksPerArena(4) == 15;
    assert BlocksPerArena(5) == 7;
    assert BlocksPerArena(6) == 3;
  }

  datatype Desc = Desc(blockSize: nat, blocksPerArena: nat)

  /** `malloc_init` */
  method MallocInit() returns (descs: seq<Desc>)
    ensures |descs| == DESC_CNT
    ensures forall d :: 0 <= d < DESC_CNT ==> descs[d] == Desc(BlockSize(d), BlocksPerArena(d))
  {
    descs := [];
    var blockSize := 16;
    while blockSize < PAGE_SIZE / 2
      invariant blockSize == BlockSize(|descs|) && |descs| <= DESC_CNT
      invariant blockSize < PAGE_SIZE / 2 <==> |descs| < DESC_CNT
      invariant forall d :: 0 <= d < |descs| ==> descs[d] == Desc(BlockSize(d), BlocksPerArena(d))
      decreases PAGE_SIZE / 2 - blockSize
    {
      DescTable(|descs|);
      if |descs| + 1 < DESC_CNT {
        DescTable(|descs| + 1);
      }
      assert |descs| + 1 <= 10;
      descs := descs + [Desc(blockSize, (PAGE_SIZE - ARENA_HEADER) / blockSize)];
      blockSize := blockSize * 2;
    }
  }

  /** The smallest descriptor whose blocks hold size bytes, or DESC_CNT. */
  function DescFor(d: nat, size: nat): (r: nat)
    requires d <= DESC_CNT
    ensures d <= r <= DESC_CNT && (r < DESC_CNT ==> BlockSize(r) >= size)
    decreases DESC_CNT - d
  {
    if d < DESC_CNT && BlockSize(d) < size then DescFor(d + 1, size) else d
  }

  /** No smaller descriptor would do. */
  lemma {:induction false} DescForLeast(d: nat, size: nat, e: nat)
    requires d <= DESC_CNT && d <= e < DescFor(d, size)
    ensures BlockSize(e) < size
    decreases DESC_CNT - d
  {
    if d < e {
      DescForLeast(d + 1, size, e);
    }
  }

  // ---------- Addresses of blocks ----------

  /** The offset of block i in an arena of descriptor d. */
  function Offset(d: nat, i: nat): (r: nat)
    ensures r >= ARENA_HEADER
  {
    if i == 0 then ARENA_HEADER else Offset(d, i - 1) + BlockSize(d)
  }

  /** `arena_to_block` for the arena on page p */
  function BlockAt(p: nat, d: nat, i: nat): nat {
    p * PAGE_SIZE + Offset(d, i)
  }

  function PageOf(a: nat): nat {
    a / PAGE_SIZE
  }

  lemma {:induction false} OffsetGrows(d: nat, i: nat, j: nat)
    requires i < j
    ensures Offset(d, i) + BlockSize(d) <= Offset(d, j)
    decreases j
  {
    if i < j - 1 {
      OffsetGrows(d, i, j - 1);
    }
  }

  lemma {:induction false} OffsetIs(d: nat, i: nat)
    requires d < DESC_CNT
    ensures Offset(d, i) == ARENA_HEADER + i * BlockSize(d)
  {
    if i > 0 {
      OffsetIs(d, i - 1);
      DescTable(d);
    }
  }

  lemma BlocksFill(d: nat)
    requires d < DESC_CNT
    ensures BlocksPerArena(d) * BlockSize(d) <= PAGE_SIZE - ARENA_HEADER
  {
    DescTable(d);
  }

  /** The blocks of an arena come after the header and do not leave the page. */
  lemma OffsetFits(d: nat, i: nat)
    requires d < DESC_CNT && i < BlocksPerArena(d)
    ensures ARENA_HEADER <= Offset(d, i) && Offset(d, i) + BlockSize(d) <= PAGE_SIZE
  {
    BlocksFill(d);
    OffsetIs(d, BlocksPerArena(d));
    OffsetGrows(d, i, BlocksPerArena(d));
  }

  /** a is a block of an arena of descriptor d on its page. */
  predicate IsBlock(a: nat, d: nat) {
    exists i :: 0 <= i < BlocksPerArena(d) && a % PAGE_SIZE == Offset(d, i)
  }

  lemma BlockIsBlock(p: nat, d: nat, i: nat)
    requires d < DESC_CNT && i < BlocksPerArena(d)
    ensures PageOf(BlockAt(p, d, i)) == p && BlockAt(p, d, i) % PAGE_SIZE == Offset(d, i) &&
            IsBlock(BlockAt(p, d, i), d)
  {
    OffsetFits(d, i);
  }

  /** `block_to_arena` finds every block correctly aligned. */
  lemma BlockIsAligned(a: nat, d: nat)
    requires d < DESC_CNT && IsBlock(a, d)
    ensures a % PAGE_SIZE >= ARENA_HEADER && (a % PAGE_SIZE - ARENA_HEADER) % BlockSize(d) == 0
    ensures a % PAGE_SIZE + BlockSize(d) <= PAGE_SIZE
  {
    var i :| 0 <= i < BlocksPerArena(d) && a % PAGE_SIZE == Offset(d, i);
    OffsetFits(d, i);
    OffsetIs(d, i);
    DescTable(d);
    MultipleOf(i, BlockSize(d));
  }

  lemma MultipleOf(i: nat, n: nat)
    requires n in {16, 32, 64, 128, 256, 512, 1024}
    ensures (i * n) % n == 0
  {
    if n == 16 {
      assert (i * 16) % 16 == 0;
    } else if n == 32 {
      assert (i * 32) % 32 == 0;
    } else if n == 64 {
      assert (i * 64) % 64 == 0;
    } else if n == 128 {
      assert (i * 128) % 128 == 0;
    } else if n == 256 {
      assert (i * 256) % 256 == 0;
    } else if n == 512 {
      assert (i * 512) % 512 == 0;
    } else {
      assert (i * 1024) % 1024 == 0;
    }
  }

  /** Two blocks of one arena do not overlap. */
  lemma BlocksApart(a: nat, b: nat, d: nat)
    requires d < DESC_CNT && IsBlock(a, d) && IsBlock(b, d) && PageOf(a) == PageOf(b) && a < b
    ensures a + BlockSize(d) <= b
  {
    var i :| 0 <= i < BlocksPerArena(d) && a % PAGE_SIZE == Offset(d, i);
    var j :| 0 <= j < BlocksPerArena(d) && b % PAGE_SIZE == Offset(d, j);
    if j < i {
      OffsetGrows(d, j, i);
    } else if i < j {
      OffsetGrows(d, i, j);
    }
  }

  /** The first n blocks of an arena, in order. */
  function FirstBlocks(p: nat, d: nat, n: nat): (r: seq<nat>)
    ensures |r| == n
  {
    if n == 0 then [] else FirstBlocks(p, d, n - 1) + [BlockAt(p, d, n - 1)]
  }

  function AllBlocks(p: nat, d: nat): seq<nat> {
    FirstBlocks(p, d, BlocksPerArena(d))
  }

  lemma {:induction false} FirstBlocksAre(p: nat, d: nat, n: nat)
    requires d < DESC_CNT
    ensures Distinct(FirstBlocks(p, d, n)) && (n > 0 ==> FirstBlocks(p, d, n)[0] == BlockAt(p, d, 0))
    ensures forall a: nat :: a in FirstBlocks(p, d, n) <==> exists j :: 0 <= j < n && a == BlockAt(p, d, j)
  {
    if n > 0 {
      FirstBlocksAre(p, d, n - 1);
      BlocksDiffer(p, d, n - 1);
      SnocDistinct(FirstBlocks(p, d, n - 1), BlockAt(p, d, n - 1));
    }
  }

  // ---------- Lists of blocks ----------

  /** How many blocks of page p are on the list. */
  function OnPage(q: seq<nat>, p: nat): nat {
    if q == [] then 0 else (if PageOf(q[0]) == p then 1 else 0) + OnPage(q[1..], p)
  }

  /** The list without the blocks in gone. */
  function Minus(q: seq<nat>, gone: set<nat>): seq<nat> {
    if q == [] then [] else (if q[0] in gone then [] else [q[0]]) + Minus(q[1..], gone)
  }

  lemma {:induction false} MinusKeeps(q: seq<nat>, gone: set<nat>)
    ensures forall a :: a in Minus(q, gone) <==> a in q && a !in gone
    ensures Distinct(q) ==> Distinct(Minus(q, gone))
  {
    if q != [] {
      assert q == [q[0]] + q[1..];
      MinusKeeps(q[1..], gone);
    }
  }

  lemma {:induction false} MinusTwice(q: seq<nat>, gone: set<nat>, a: nat)
    ensures Minus(Minus(q, gone), {a}) == Minus(q, gone + {a})
  {
    if q != [] {
      MinusTwice(q[1..], gone, a);
      var rest := Minus(q[1..], gone);
      assert ([q[0]] + rest)[1..] == rest == [] + rest;
    }
  }

  lemma {:induction false} MinusNothing(q: seq<nat>)
    ensures Minus(q, {}) == q
  {
    if q != [] {
      MinusNothing(q[1..]);
      assert q == [q[0]] + q[1..];
    }
  }

  /** Taking off all blocks of page p. */
  lemma {:induction false} MinusPage(q: seq<nat>, gone: set<nat>, p: nat, r: nat)
    requires forall a :: a in q ==> (a in gone <==> PageOf(a) == p)
    ensures OnPage(Minus(q, gone), r) == if r == p then 0 else OnPage(q, r)
  {
    if q != [] {
      assert q[0] in q && forall a :: a in q[1..] ==> a in q;
      MinusPage(q[1..], gone, p, r);
      var rest := Minus(q[1..], gone);
      assert ([q[0]] + rest)[1..] == rest == [] + rest;
    }
  }

  lemma {:induction false} OnPageSnoc(q: seq<nat>, a: nat, p: nat)
    ensures OnPage(q + [a], p) == OnPage(q, p) + if PageOf(a) == p then 1 else 0
  {
    if q == [] {
      assert [a][1..] == [];
    } else {
      OnPageSnoc(q[1..], a, p);
      assert (q + [a])[1..] == q[1..] + [a];
    }
  }

  lemma {:induction false} CountBlocks(p: nat, d: nat, n: nat, r: nat)
    requires d < DESC_CNT && n <= BlocksPerArena(d)
    ensures OnPage(FirstBlocks(p, d, n), r) == if r == p then n else 0
  {
    if n > 0 {
      BlockIsBlock(p, d, n - 1);
      CountBlocks(p, d, n - 1, r);
      OnPageSnoc(FirstBlocks(p, d, n - 1), BlockAt(p, d, n - 1), r);
    }
  }

  /** The first n blocks of an arena. */
  function BlockSet(p: nat, d: nat, n: nat): set<nat> {
    if n == 0 then {} else BlockSet(p, d, n - 1) + {BlockAt(p, d, n - 1)}
  }

  lemma {:induction false} BlockSetIs(p: nat, d: nat, n: nat, a: nat)
    requires d < DESC_CNT && n <= BlocksPerArena(d)
    ensures a in BlockSet(p, d, n) <==> exists j :: 0 <= j < n && a == BlockAt(p, d, j)
  {
    if n > 0 {
      BlockSetIs(p, d, n - 1, a);
    }
  }

  /** The blocks of the arena on page p are the well-placed addresses on that page. */
  lemma BlocksOfPage(p: nat, d: nat, a: nat)
    requires d < DESC_CNT
    ensures PageOf(a) == p && IsBlock(a, d) <==> a in BlockSet(p, d, BlocksPerArena(d))
    ensures PageOf(a) == p && IsBlock(a, d) <==> a in AllBlocks(p, d)
  {
    BlockSetIs(p, d, BlocksPerArena(d), a);
    FirstBlocksAre(p, d, BlocksPerArena(d));
    if j :| 0 <= j < BlocksPerArena(d) && a == BlockAt(p, d, j) {
      BlockIsBlock(p, d, j);
    }
    if PageOf(a) == p && IsBlock(a, d) {
      var j :| 0 <= j < BlocksPerArena(d) && a % PAGE_SIZE == Offset(d, j);
      assert a == BlockAt(p, d, j);
    }
  }

  lemma {:induction false} MinusAll(q: seq<nat>, gone: set<nat>)
    requires forall a :: a in q ==> a in gone
    ensures Minus(q, gone) == []
  {
    if q != [] {
      assert forall a :: a in q[1..] ==> a in q;
      MinusAll(q[1..], gone);
    }
  }

  lemma BlocksDiffer(p: nat, d: nat, i: nat)
    ensures forall j :: 0 <= j < i ==> BlockAt(p, d, j) != BlockAt(p, d, i)
  {
    forall j | 0 <= j < i
      ensures BlockAt(p, d, j) != BlockAt(p, d, i)
    {
      OffsetGrows(d, j, i);
    }
  }
}
