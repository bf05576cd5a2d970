/**
 * Two-level page tables refining a flat partial map of user pages (userprog/pagedir.c, threads/pte.h, threads/vaddr.h).
 */
module PageDir {
  import opened Common

  const WORDS: nat := 1024                 // entries in a page directory or page table
  const USER_PDES: nat := 768              // pd_no (PHYS_BASE)
  const USER_PAGES: nat := 768 * 1024

  /** What a user page is mapped to: the frame's kernel address, whether it may be written, and whether by user code. */
  datatype Mapping = Unmapped | Mapped(frame: nat, writable: bool, user: bool)

  /** The page tables in memory: page address to its 1024 words. */
  type Tables = map<nat, seq<nat>>

  // ---------- Address and entry layout ----------

  function PgOfs(va: nat): nat { va % PAGE_SIZE }

  function PgNo(va: nat): nat { va / PAGE_SIZE }

  function PtNo(va: nat): nat { va / PAGE_SIZE % WORDS }

  function PdNo(va: nat): nat { va / (PAGE_SIZE * WORDS) }

  /** A page-aligned kernel address of the physical memory that fits below the top of the address space. */
  predicate IsPage(addr: nat) {
    PHYS_BASE <= addr < 0x1_0000_0000 && addr % PAGE_SIZE == 0
  }

  predicate IsPresent(w: nat) { w % 2 == 1 }

  predicate IsWritable(w: nat) { w / 2 % 2 == 1 }

  predicate IsUser(w: nat) { w / 4 % 2 == 1 }

  /** An address without low bits, or-ed with flag bits. */
  function WithFlags(page: nat, flags: nat): nat
    requires IsPage(page) && flags < PAGE_SIZE
  {
    page - PHYS_BASE + flags
  }

  const PTE_P: nat := 1
  const PTE_W: nat := 2
  const PTE_U: nat := 4

  function PteCreateUser(page: nat, writable: bool): nat
    requires IsPage(page)
  {
    WithFlags(page, PTE_P + (if writable then PTE_W else 0) + PTE_U)
  }

  function PdeCreate(pt: nat): nat
    requires IsPage(pt)
  {
    WithFlags(pt, PTE_U + PTE_P + PTE_W)
  }

  /** The kernel address of the page an entry points to: clears the flag bits. */
  function EntryPage(w: nat): nat {
    w / PAGE_SIZE * PAGE_SIZE + PHYS_BASE
  }

  lemma FlagBits(k: nat, flags: nat)
    requires flags < PAGE_SIZE
    ensures (PAGE_SIZE * k + flags) / PAGE_SIZE == k
    ensures IsPresent(PAGE_SIZE * k + flags) == IsPresent(flags) &&
            IsWritable(PAGE_SIZE * k + flags) == IsWritable(flags) && IsUser(PAGE_SIZE * k + flags) == IsUser(flags)
  {
    assert (PAGE_SIZE * k + flags) / 4 == 1024 * k + flags / 4;
    assert (1024 * k + flags / 4) % 2 == flags / 4 % 2;
    assert (PAGE_SIZE * k + flags) / 2 == 2048 * k + flags / 2;
    assert (2048 * k + flags / 2) % 2 == flags / 2 % 2;
  }

  /** What is stored in an entry is what is read back from it. */
  lemma EntryRoundTrip(page: nat, writable: bool)
    requires IsPage(page)
    ensures EntryPage(PteCreateUser(page, writable)) == page && IsPresent(PteCreateUser(page, writable))
    ensures IsWritable(PteCreateUser(page, writable)) == writable && IsUser(PteCreateUser(page, writable))
    ensures EntryPage(PdeCreate(page)) == page && IsPresent(PdeCreate(page))
    ensures IsWritable(PdeCreate(page)) && IsUser(PdeCreate(page))
  {
    var k := (page - PHYS_BASE) / PAGE_SIZE;
    assert page - PHYS_BASE == PAGE_SIZE * k;
    FlagBits(k, PTE_P + (if writable then PTE_W else 0) + PTE_U);
    FlagBits(k, PTE_U + PTE_P + PTE_W);
  }

  /** `*pte &= ~PTE_P`. */
  function Cleared(w: nat): nat {
    if IsPresent(w) then w - 1 else w
  }

  /** Only the present bit changes. */
  lemma ClearedBits(w: nat)
    ensures !IsPresent(Cleared(w)) && Cleared(w) / 2 == w / 2
  {
  }

  /** The two table indices of an address are the two digits of its page number. */
  lemma AddressSplit(va: nat)
    ensures PdNo(va) == PgNo(va) / WORDS && PtNo(va) == PgNo(va) % WORDS
    ensures va < PHYS_BASE <==> PgNo(va) < USER_PAGES
    ensures va == PgNo(va) * PAGE_SIZE + PgOfs(va)
  {
  }

  // ---------- The map that a page directory stands for ----------

  function ToMapping(w: nat): Mapping {
    if IsPresent(w) then Mapped(EntryPage(w), IsWritable(w), IsUser(w)) else Unmapped
  }

  /** A page directory or page table is one page of 1024 words. */
  predicate IsTable(m: Tables, t: nat) {
    t in m && |m[t]| == WORDS && IsPage(t)
  }

  /** Entry i of the directory is empty or points to a page table, and leaves all decisions to that table. */
  predicate PdeOk(m: Tables, pd: nat, i: nat)
    requires IsTable(m, pd) && i < USER_PDES
  {
    m[pd][i] == 0 ||
    (IsPresent(m[pd][i]) && IsWritable(m[pd][i]) && IsUser(m[pd][i]) &&
     IsTable(m, EntryPage(m[pd][i])) && EntryPage(m[pd][i]) != pd)
  }

  ghost predicate WellFormed(m: Tables, pd: nat) {
    && IsTable(m, pd)
    && (forall i :: 0 <= i < USER_PDES ==> PdeOk(m, pd, i))
    && (forall i, j :: 0 <= i < j < USER_PDES && m[pd][i] != 0 && m[pd][j] != 0 ==>
        EntryPage(m[pd][i]) != EntryPage(m[pd][j]))
  }

  /** The page table entry for user page v, where a missing table reads as an empty entry. */
  function Entry(m: Tables, pd: nat, v: nat): nat
    requires WellFormed(m, pd) && v < USER_PAGES
  {
    assert PdeOk(m, pd, v / WORDS);
    if m[pd][v / WORDS] == 0 then 0 else m[EntryPage(m[pd][v / WORDS])][v % WORDS]
  }

  /** The flat map: user page number to its mapping. */
  function Translate(m: Tables, pd: nat, v: nat): Mapping
    requires WellFormed(m, pd) && v < USER_PAGES
  {
    ToMapping(Entry(m, pd, v))
  }

  /** The processor lets user code reach page v, for writing or not, if both levels allow it. */
  predicate UserMay(m: Tables, pd: nat, v: nat, write: bool)
    requires WellFormed(m, pd) && v < USER_PAGES
  {
    var d, e := m[pd][v / WORDS], Entry(m, pd, v);
    d % 2 == 1 && d / 4 % 2 == 1 && e % 2 == 1 && e / 4 % 2 == 1 && (write ==> d / 2 % 2 == 1 && e / 2 % 2 == 1)
  }

  lemma UserMayIff(m: Tables, pd: nat, v: nat, write: bool)
    requires WellFormed(m, pd) && v < USER_PAGES
    ensures UserMay(m, pd, v, write) <==>
              Translate(m, pd, v).Mapped? && Translate(m, pd, v).user && (write ==> Translate(m, pd, v).writable)
  {
    assert PdeOk(m, pd, v / WORDS);
  }

  /** The physical address that the processor computes for va by walking both levels, if they are present. */
  function Walk(m: Tables, pd: nat, va: nat): Option<nat>
    requires WellFormed(m, pd) && va < 0xc000_0000
  {
    var d := m[pd][va / 0x40_0000];
    if d % 2 == 0 then None
    else
      assert PdeOk(m, pd, va / 0x40_0000);
      var e := m[d / 0x1000 * 0x1000 + 0xc000_0000][va / 0x1000 % 1024];
      if e % 2 == 0 then None else Some(e / 0x1000 * 0x1000 + va % 0x1000)
  }

  /** The walk ends where the map says. */
  lemma WalkIs(m: Tables, pd: nat, va: nat)
    requires WellFormed(m, pd) && va < PHYS_BASE
    ensures PgNo(va) < USER_PAGES
    ensures Walk(m, pd, va) == match Translate(m, pd, PgNo(va))
                               case Unmapped => None
                               case Mapped(frame, _, _) => Some(frame - PHYS_BASE + va % 0x1000)
  {
    AddressSplit(va);
    assert PdeOk(m, pd, PdNo(va));
    assert va / 0x40_0000 == PdNo(va) && va / 0x1000 % 1024 == PtNo(va);
  }

  lemma InPage(upage: nat, va: nat)
    requires PgOfs(upage) == 0 && upage < PHYS_BASE && upage <= va < upage + PAGE_SIZE
    ensures va < PHYS_BASE && PgNo(va) == PgNo(upage) && va % 0x1000 == va - upage
  {
  }

  ghost predicate WalksTo(m: Tables, pd: nat, upage: nat, phys: int)
    requires WellFormed(m, pd) && upage % 0x1000 == 0 && upage < 0xc000_0000
  {
    forall va :: upage <= va < upage + 0x1000 ==> va < 0xc000_0000 && Walk(m, pd, va) == Some(phys + (va - upage))
  }

  lemma WalksInto(m: Tables, pd: nat, upage: nat, frame: nat, writable: bool, user: bool)
    requires WellFormed(m, pd) && PgOfs(upage) == 0 && upage < PHYS_BASE && PgNo(upage) < USER_PAGES
    requires Translate(m, pd, PgNo(upage)) == Mapped(frame, writable, user)
    ensures WalksTo(m, pd, upage, frame - PHYS_BASE)
  {
    forall va | upage <= va < upage + PAGE_SIZE
      ensures va < PHYS_BASE && Walk(m, pd, va) == Some(frame - PHYS_BASE + (va - upage))
    {
      InPage(upage, va);
      WalkIs(m, pd, va);
    }
  }

  // ---------- Two kinds of writes ----------

  /** The tables after an empty page table at t is hung under directory entry i. */
  function WithTable(m: Tables, pd: nat, i: nat, t: nat): Tables
    requires IsTable(m, pd) && i < USER_PDES && IsPage(t)
  {
    m[t := seq(WORDS, k => 0)][pd := m[pd][i := PdeCreate(t)]]
  }

  /** A fresh empty table changes no translation. */
  lemma WithTableKeeps(m: Tables, pd: nat, i: nat, t: nat)
    requires WellFormed(m, pd) && i < USER_PDES && m[pd][i] == 0
    requires IsPage(t) && t !in m
    ensures WellFormed(WithTable(m, pd, i, t), pd)
    ensures forall v :: 0 <= v < USER_PAGES ==> Translate(WithTable(m, pd, i, t), pd, v) == Translate(m, pd, v)
  {
    var m' := WithTable(m, pd, i, t);
    EntryRoundTrip(t, true);
    forall k | 0 <= k < USER_PDES
      ensures PdeOk(m', pd, k)
    {
      assert PdeOk(m, pd, k);
    }
    forall j, k | 0 <= j < k < USER_PDES && m'[pd][j] != 0 && m'[pd][k] != 0
      ensures EntryPage(m'[pd][j]) != EntryPage(m'[pd][k])
    {
      assert PdeOk(m, pd, j) && PdeOk(m, pd, k);
    }
    forall v | 0 <= v < USER_PAGES
      ensures Translate(m', pd, v) == Translate(m, pd, v)
    {
      assert PdeOk(m, pd, v / WORDS);
    }
  }

  /** The tables after the entry of user page v becomes w. */
  function WithEntry(m: Tables, pd: nat, v: nat, w: nat): Tables
    requires WellFormed(m, pd) && v < USER_PAGES && m[pd][v / WORDS] != 0
  {
    assert PdeOk(m, pd, v / WORDS);
    var t := EntryPage(m[pd][v / WORDS]);
    var row: seq<nat> := m[t][v % WORDS := w];
    m[t := row]
  }

  /** Writing one entry changes exactly one translation. */
  lemma WithEntryUpdates(m: Tables, pd: nat, v: nat, w: nat)
    requires WellFormed(m, pd) && v < USER_PAGES && m[pd][v / WORDS] != 0
    ensures WellFormed(WithEntry(m, pd, v, w), pd)
    ensures forall u :: 0 <= u < USER_PAGES ==>
              Translate(WithEntry(m, pd, v, w), pd, u) == if u == v then ToMapping(w) else Translate(m, pd, u)
  {
    var m' := WithEntry(m, pd, v, w);
    assert PdeOk(m, pd, v / WORDS);
    forall k | 0 <= k < USER_PDES
      ensures PdeOk(m', pd, k)
    {
      assert PdeOk(m, pd, k);
    }
    forall u | 0 <= u < USER_PAGES
      ensures Translate(m', pd, u) == if u == v then ToMapping(w) else Translate(m, pd, u)
    {
      assert PdeOk(m, pd, u / WORDS);
    }
  }

  // ---------- Who owns which page ----------

  function TablesBelow(m: Tables, pd: nat, n: nat): set<nat>
    requires IsTable(m, pd) && n <= USER_PDES
  {
    set i | 0 <= i < n && m[pd][i] != 0 :: EntryPage(m[pd][i])
  }

  ghost function FramesBelow(m: Tables, pd: nat, n: nat): set<nat>
    requires WellFormed(m, pd) && n <= USER_PAGES
  {
    set v | 0 <= v < n && Translate(m, pd, v).Mapped? :: Translate(m, pd, v).frame
  }

  /** The directory, its page tables and the user frames mapped in it. */
  ghost function Owned(m: Tables, pd: nat): set<nat>
    requires WellFormed(m, pd)
  {
    {pd} + TablesBelow(m, pd, USER_PDES) + FramesBelow(m, pd, USER_PAGES)
  }

  /** No frame is mapped twice, and none is also a table or the directory. */
  ghost predicate Exclusive(m: Tables, pd: nat)
    requires WellFormed(m, pd)
  {
    && (forall u, v :: 0 <= u < v < USER_PAGES && Translate(m, pd, u).Mapped? && Translate(m, pd, v).Mapped? ==>
          Translate(m, pd, u).frame != Translate(m, pd, v).frame)
    && (forall v :: 0 <= v < USER_PAGES && Translate(m, pd, v).Mapped? ==>
          Translate(m, pd, v).frame != pd && Translate(m, pd, v).frame !in TablesBelow(m, pd, USER_PDES))
  }

  /** What every operation but the last needs: tables in pages that are handed out. Frames may be mapped anyhow. */
  ghost predicate Sound(m: Tables, used: set<nat>, pd: nat) {
    WellFormed(m, pd) && m.Keys <= used
  }

  /** What `pagedir_destroy` needs as well. */
  ghost predicate Valid(m: Tables, used: set<nat>, pd: nat) {
    Sound(m, used, pd) && Exclusive(m, pd) && Owned(m, pd) <= used
  }

  lemma OwnedTable(m: Tables, pd: nat, i: nat)
    requires WellFormed(m, pd) && i < USER_PDES && m[pd][i] != 0
    ensures EntryPage(m[pd][i]) in TablesBelow(m, pd, USER_PDES) && IsTable(m, EntryPage(m[pd][i])) &&
            EntryPage(m[pd][i]) != pd
  {
    assert PdeOk(m, pd, i);
  }

  lemma OwnedFrame(m: Tables, pd: nat, v: nat)
    requires WellFormed(m, pd) && v < USER_PAGES && Translate(m, pd, v).Mapped?
    ensures Translate(m, pd, v).frame in Owned(m, pd)
  {
    assert Translate(m, pd, v).frame in FramesBelow(m, pd, USER_PAGES);
  }

  /** Hanging a fresh table under the directory adds one owned page. */
  lemma WithTableOwned(m: Tables, pd: nat, i: nat, t: nat)
    requires WellFormed(m, pd) && i < USER_PDES && m[pd][i] == 0 && IsPage(t) && t !in m
    ensures WellFormed(WithTable(m, pd, i, t), pd) && Owned(WithTable(m, pd, i, t), pd) == Owned(m, pd) + {t}
    ensures TablesBelow(WithTable(m, pd, i, t), pd, USER_PDES) == TablesBelow(m, pd, USER_PDES) + {t}
    ensures forall v :: 0 <= v < USER_PAGES ==> Translate(WithTable(m, pd, i, t), pd, v) == Translate(m, pd, v)
  {
    var m' := WithTable(m, pd, i, t);
    WithTableKeeps(m, pd, i, t);
    EntryRoundTrip(t, true);
    assert TablesBelow(m', pd, USER_PDES) == TablesBelow(m, pd, USER_PDES) + {t} by {
      assert m'[pd][i] != 0 && EntryPage(m'[pd][i]) == t;
      forall x | x in TablesBelow(m, pd, USER_PDES)
        ensures x in TablesBelow(m', pd, USER_PDES)
      {
        var k :| 0 <= k < USER_PDES && m[pd][k] != 0 && x == EntryPage(m[pd][k]);
        assert m'[pd][k] == m[pd][k];
      }
    }
    assert FramesBelow(m', pd, USER_PAGES) == FramesBelow(m, pd, USER_PAGES);
  }

  lemma WithTableValid(m: Tables, used: set<nat>, pd: nat, i: nat, t: nat)
    requires Valid(m, used, pd) && i < USER_PDES && m[pd][i] == 0 && IsPage(t) && t !in used
    ensures Valid(WithTable(m, pd, i, t), used + {t}, pd)
  {
    WithTableOwned(m, pd, i, t);
    forall v | 0 <= v < USER_PAGES && Translate(m, pd, v).Mapped?
      ensures Translate(m, pd, v).frame != t
    {
      OwnedFrame(m, pd, v);
    }
  }

  /** Mapping an unmapped page adds its frame to the owned pages. */
  lemma WithEntryOwned(m: Tables, pd: nat, v: nat, frame: nat, writable: bool)
    requires WellFormed(m, pd) && v < USER_PAGES && m[pd][v / WORDS] != 0
    requires Translate(m, pd, v).Unmapped? && IsPage(frame)
    ensures var m' := WithEntry(m, pd, v, PteCreateUser(frame, writable));
            && WellFormed(m', pd) && Owned(m', pd) == Owned(m, pd) + {frame}
            && TablesBelow(m', pd, USER_PDES) == TablesBelow(m, pd, USER_PDES)
            && forall u :: 0 <= u < USER_PAGES ==>
                 Translate(m', pd, u) == if u == v then Mapped(frame, writable, true) else Translate(m, pd, u)
  {
    var w := PteCreateUser(frame, writable);
    var m' := WithEntry(m, pd, v, w);
    EntryRoundTrip(frame, writable);
    WithEntryUpdates(m, pd, v, w);
    assert PdeOk(m, pd, v / WORDS);
    assert TablesBelow(m', pd, USER_PDES) == TablesBelow(m, pd, USER_PDES);
    FramesGrow(m, m', pd, v);
  }

  /** A frame that was not owned yet is then mapped once. */
  lemma WithEntryValid(m: Tables, used: set<nat>, pd: nat, v: nat, frame: nat, writable: bool)
    requires Valid(m, used, pd) && v < USER_PAGES && m[pd][v / WORDS] != 0
    requires Translate(m, pd, v).Unmapped? && IsPage(frame) && frame in used && frame !in Owned(m, pd)
    ensures Valid(WithEntry(m, pd, v, PteCreateUser(frame, writable)), used, pd)
  {
    WithEntryOwned(m, pd, v, frame, writable);
    assert PdeOk(m, pd, v / WORDS);
    forall u | 0 <= u < USER_PAGES && u != v && Translate(m, pd, u).Mapped?
      ensures Translate(m, pd, u).frame != frame
    {
      OwnedFrame(m, pd, u);
    }
  }

  lemma TableAdded(m: Tables, used: set<nat>, pd: nat, i: nat, t: nat)
    requires Sound(m, used, pd) && i < USER_PDES && m[pd][i] == 0 && IsPage(t) && t !in used
    ensures var m' := WithTable(m, pd, i, t);
            && Sound(m', used + {t}, pd) && Owned(m', pd) == Owned(m, pd) + {t}
            && (Valid(m, used, pd) ==> Valid(m', used + {t}, pd))
            && forall v :: 0 <= v < USER_PAGES ==> Translate(m', pd, v) == Translate(m, pd, v)
  {
    WithTableOwned(m, pd, i, t);
    if Valid(m, used, pd) {
      WithTableValid(m, used, pd, i, t);
    }
  }

  lemma PageMapped(m: Tables, used: set<nat>, pd: nat, v: nat, frame: nat, writable: bool)
    requires Sound(m, used, pd) && v < USER_PAGES && m[pd][v / WORDS] != 0
    requires Translate(m, pd, v).Unmapped? && IsPage(frame)
    ensures var m' := WithEntry(m, pd, v, PteCreateUser(frame, writable));
            && Sound(m', used, pd) && Owned(m', pd) == Owned(m, pd) + {frame}
            && (Valid(m, used, pd) && frame in used && frame !in Owned(m, pd) ==> Valid(m', used, pd))
            && forall u :: 0 <= u < USER_PAGES ==>
                 Translate(m', pd, u) == if u == v then Mapped(frame, writable, true) else Translate(m, pd, u)
  {
    WithEntryOwned(m, pd, v, frame, writable);
    assert PdeOk(m, pd, v / WORDS);
    if Valid(m, used, pd) && frame in used && frame !in Owned(m, pd) {
      WithEntryValid(m, used, pd, v, frame, writable);
    }
  }

  lemma FramesGrow(m: Tables, m': Tables, pd: nat, v: nat)
    requires WellFormed(m, pd) && WellFormed(m', pd) && v < USER_PAGES
    requires Translate(m, pd, v).Unmapped? && Translate(m', pd, v).Mapped?
    requires forall u :: 0 <= u < USER_PAGES && u != v ==> Translate(m', pd, u) == Translate(m, pd, u)
    ensures FramesBelow(m', pd, USER_PAGES) == FramesBelow(m, pd, USER_PAGES) + {Translate(m', pd, v).frame}
  {
    forall x | x in FramesBelow(m, pd, USER_PAGES)
      ensures x in FramesBelow(m', pd, USER_PAGES)
    {
      var u :| 0 <= u < USER_PAGES && Translate(m, pd, u).Mapped? && x == Translate(m, pd, u).frame;
      assert Translate(m', pd, u).Mapped?;
    }
  }

  /** Clearing the present bit takes exactly that page's frame out of the owned pages. */
  lemma ClearedValid(m: Tables, used: set<nat>, pd: nat, v: nat)
    requires Valid(m, used, pd) && v < USER_PAGES && m[pd][v / WORDS] != 0 && Translate(m, pd, v).Mapped?
    ensures var m' := WithEntry(m, pd, v, Cleared(Entry(m, pd, v)));
            && Valid(m', used, pd)
            && Owned(m', pd) == Owned(m, pd) - {Translate(m, pd, v).frame}
  {
    var w := Cleared(Entry(m, pd, v));
    var m' := WithEntry(m, pd, v, w);
    WithEntryUpdates(m, pd, v, w);
    assert PdeOk(m, pd, v / WORDS);
    assert TablesBelow(m', pd, USER_PDES) == TablesBelow(m, pd, USER_PDES);
    FramesGrow(m', m, pd, v);
    forall u | 0 <= u < USER_PAGES && Translate(m', pd, u).Mapped?
      ensures Translate(m', pd, u).frame != Translate(m, pd, v).frame
    {
      assert u != v;
    }
    assert Translate(m, pd, v).frame !in FramesBelow(m', pd, USER_PAGES);
  }

  // ---------- Counting what has been freed ----------

  /** The frames below user page v and the tables below index i. */
  ghost function Gone(m: Tables, pd: nat, v: nat, i: nat): set<nat>
    requires WellFormed(m, pd) && v <= USER_PAGES && i <= USER_PDES
  {
    FramesBelow(m, pd, v) + TablesBelow(m, pd, i)
  }

  lemma OneMoreFrame(m: Tables, pd: nat, v: nat, i: nat)
    requires WellFormed(m, pd) && v < USER_PAGES && i <= USER_PDES
    ensures Gone(m, pd, v + 1, i) ==
              Gone(m, pd, v, i) + (if Translate(m, pd, v).Mapped? then {Translate(m, pd, v).frame} else {})
  {
    assert FramesBelow(m, pd, v + 1) ==
           FramesBelow(m, pd, v) + (if Translate(m, pd, v).Mapped? then {Translate(m, pd, v).frame} else {});
  }

  lemma OneMoreTable(m: Tables, pd: nat, v: nat, i: nat)
    requires WellFormed(m, pd) && v <= USER_PAGES && i < USER_PDES
    ensures Gone(m, pd, v, i + 1) == Gone(m, pd, v, i) + (if m[pd][i] != 0 then {EntryPage(m[pd][i])} else {})
  {
    assert TablesBelow(m, pd, i + 1) == TablesBelow(m, pd, i) + (if m[pd][i] != 0 then {EntryPage(m[pd][i])} else {});
  }

  /** A missing page table holds no frames. */
  lemma EmptyTable(m: Tables, pd: nat, i: nat)
    requires WellFormed(m, pd) && i < USER_PDES && m[pd][i] == 0
    ensures Gone(m, pd, (i + 1) * WORDS, i + 1) == Gone(m, pd, i * WORDS, i)
  {
    OneMoreTable(m, pd, i * WORDS, i);
    forall v | i * WORDS <= v < (i + 1) * WORDS
      ensures Translate(m, pd, v).Unmapped?
    {
      assert v / WORDS == i;
    }
    assert FramesBelow(m, pd, (i + 1) * WORDS) == FramesBelow(m, pd, i * WORDS);
  }

  /** The next frame to free is still in use. */
  lemma FrameStillUsed(m: Tables, u: set<nat>, pd: nat, v: nat, i: nat)
    requires Valid(m, u, pd) && v < USER_PAGES && i <= USER_PDES && Translate(m, pd, v).Mapped?
    ensures Translate(m, pd, v).frame in u && Translate(m, pd, v).frame !in Gone(m, pd, v, i)
  {
    OwnedFrame(m, pd, v);
  }

  /** So are the directory and the page table at index i, whose words the walk still reads. */
  lemma TableStillUsed(m: Tables, u: set<nat>, pd: nat, v: nat, i: nat)
    requires Valid(m, u, pd) && v <= USER_PAGES && i <= USER_PDES
    ensures pd in u && pd in m && pd !in Gone(m, pd, v, i)
    ensures i < USER_PDES && m[pd][i] != 0 ==>
              EntryPage(m[pd][i]) in u && EntryPage(m[pd][i]) in m && EntryPage(m[pd][i]) !in Gone(m, pd, v, i)
  {
    if i < USER_PDES && m[pd][i] != 0 {
      OwnedTable(m, pd, i);
    }
    forall k | 0 <= k < i && m[pd][k] != 0
      ensures EntryPage(m[pd][k]) != pd
    {
      OwnedTable(m, pd, k);
    }
  }

  // ---------- The code ----------

  /** The result of `lookup_page`: a pointer to a page table entry, or null. */
  datatype PteRef = Null | Pte(table: nat, index: nat)

  class Kernel {
    var tables: Tables
    var used: set<nat>                     // pages handed out by the page allocator
    const base: seq<nat>                   // base_page_dir: kernel mappings only

    ghost predicate BaseOk() {
      |base| == WORDS && forall i :: 0 <= i < USER_PDES ==> base[i] == 0
    }

    /** `palloc_get_page`: the allocator's choice, some page not in use, or none. */
    method AllocPage(choice: Option<nat>) returns (r: Option<nat>)
      requires choice.Some? ==> IsPage(choice.value) && choice.value !in used
      modifies `used
      ensures r == choice && used == if choice.Some? then old(used) + {choice.value} else old(used)
    {
      r := choice;
      if r.Some? {
        used := used + {r.value};
      }
    }

    /** `palloc_free_page`: asserts that the page is in use; its contents are gone. */
    method FreePage(page: nat)
      requires page in used
      modifies `used, `tables
      ensures used == old(used) - {page} && tables == old(tables) - {page}
    {
      used := used - {page};
      tables := tables - {page};
    }

    /** `pagedir_create`: a directory that maps no user page, or nothing when memory is out. */
    method Create(choice: Option<nat>) returns (pd: Option<nat>)
      requires BaseOk() && tables.Keys <= used
      requires choice.Some? ==> IsPage(choice.value) && choice.value !in used
      modifies `used, `tables
      ensures pd == choice
      ensures pd.None? ==> used == old(used) && tables == old(tables)
      ensures pd.Some? ==>
                && Valid(tables, used, pd.value) && Owned(tables, pd.value) == {pd.value}
                && used == old(used) + {pd.value} && tables - {pd.value} == old(tables) && tables[pd.value] == base
                && forall v :: 0 <= v < USER_PAGES ==> Translate(tables, pd.value, v).Unmapped?
    {
      pd := AllocPage(choice);
      if pd.Some? {
        tables := tables[pd.value := base];
        assert forall i :: 0 <= i < USER_PDES ==> PdeOk(tables, pd.value, i);
      }
    }

    /** `lookup_page`: the entry for an address; with `create` it may hang a new page table first. */
    method LookupPage(pd: nat, va: nat, create: bool, choice: Option<nat>) returns (r: PteRef)
      requires Sound(tables, used, pd) && va < PHYS_BASE
      requires choice.Some? ==> IsPage(choice.value) && choice.value !in used
      modifies `used, `tables
      ensures var i := PdNo(va);
              && (old(tables[pd][i]) != 0 ==> used == old(used) && tables == old(tables))
              && (old(tables[pd][i]) == 0 && !(create && choice.Some?) ==>
                  r == Null && used == old(used) && tables == old(tables))
              && (old(tables[pd][i]) == 0 && create && choice.Some? ==>
                    used == old(used) + {choice.value} && tables == WithTable(old(tables), pd, i, choice.value))
              && (r.Pte? ==>
                    pd in tables && |tables[pd]| == WORDS && tables[pd][i] != 0 &&
                    r == Pte(EntryPage(tables[pd][i]), PtNo(va)))
              && (r.Null? ==> old(tables[pd][i]) == 0 && !(create && choice.Some?))
    {
      var i := PdNo(va);
      if tables[pd][i] == 0 {
        if create {
          var pt := AllocPage(choice);
          if pt.None? {
            return Null;
          }
          EntryRoundTrip(pt.value, true);
          tables := WithTable(tables, pd, i, pt.value);
        } else {
          return Null;
        }
      }
      r := Pte(EntryPage(tables[pd][i]), PtNo(va));
    }

    /** `pagedir_set_page`: maps one page; when memory is out, nothing changes. */
    method SetPage(pd: nat, upage: nat, kpage: nat, writable: bool, choice: Option<nat>) returns (ok: bool)
      requires Sound(tables, used, pd)
      requires PgOfs(upage) == 0 && upage < PHYS_BASE && IsPage(kpage)
      requires Translate(tables, pd, PgNo(upage)).Unmapped?
      requires choice.Some? ==> IsPage(choice.value) && choice.value !in used
      modifies `used, `tables
      ensures Sound(tables, used, pd)
      ensures old(Valid(tables, used, pd) && kpage in used && kpage !in Owned(tables, pd)) ==> Valid(tables, used, pd)
      ensures ok <==> old(tables[pd][PdNo(upage)]) != 0 || choice.Some?
      ensures !ok ==> tables == old(tables) && used == old(used)
      ensures ok ==> forall v :: 0 <= v < USER_PAGES ==>
                       Translate(tables, pd, v) ==
                         if v == PgNo(upage) then Mapped(kpage, writable, true) else old(Translate(tables, pd, v))
      ensures ok ==> Owned(tables, pd) == old(Owned(tables, pd)) + {kpage} + (used - old(used))
      ensures forall t :: t in old(tables) && t !in old(Owned(tables, pd)) ==>
              t in tables && tables[t] == old(tables[t])
      ensures ok ==> UserMay(tables, pd, PgNo(upage), false) && (UserMay(tables, pd, PgNo(upage), true) <==> writable)
      ensures ok ==> WalksTo(tables, pd, upage, kpage - PHYS_BASE)
      ensures tables[pd][USER_PDES..] == old(tables[pd][USER_PDES..])
    {
      ghost var m0, u0 := tables, used;
      var v := PgNo(upage);
      AddressSplit(upage);
      var pte := LookupPage(pd, upage, true, choice);
      if pte.Null? {
        return false;
      }
      if m0[pd][v / WORDS] == 0 {
        TableAdded(m0, u0, pd, v / WORDS, choice.value);
      }
      ghost var m1 := tables;
      OwnedTable(m1, pd, v / WORDS);
      PageMapped(m1, used, pd, v, kpage, writable);
      var row: seq<nat> := tables[pte.table][pte.index := PteCreateUser(kpage, writable)];
      tables := tables[pte.table := row];
      assert tables == WithEntry(m1, pd, v, PteCreateUser(kpage, writable));
      UserMayIff(tables, pd, v, false);
      UserMayIff(tables, pd, v, true);
      WalksInto(tables, pd, upage, kpage, writable, true);
      ok := true;
    }

    /** `pagedir_get_page`: frame plus offset for every address of a mapped page, null elsewhere. */
    method GetPage(pd: nat, uaddr: nat) returns (r: Option<nat>)
      requires Sound(tables, used, pd) && uaddr < PHYS_BASE
      modifies `used, `tables
      ensures tables == old(tables) && used == old(used)
      ensures PgNo(uaddr) < USER_PAGES
      ensures r == match Translate(tables, pd, PgNo(uaddr))
                   case Unmapped => None
                   case Mapped(frame, _, _) => Some(frame + PgOfs(uaddr))
    {
      AddressSplit(uaddr);
      var pte := LookupPage(pd, uaddr, false, None);
      if pte.Null? {
        return None;
      }
      OwnedTable(tables, pd, PdNo(uaddr));
      var w := tables[pte.table][pte.index];
      r := if IsPresent(w) then Some(EntryPage(w) + PgOfs(uaddr)) else None;
    }

    /** `pagedir_clear_page`: removes exactly one page from the map; its frame is no longer owned. */
    method ClearPage(pd: nat, upage: nat)
      requires Sound(tables, used, pd)
      requires PgOfs(upage) == 0 && upage < PHYS_BASE
      modifies `used, `tables
      ensures Sound(tables, used, pd) && used == old(used)
      ensures PgNo(upage) < USER_PAGES
      ensures forall v :: 0 <= v < USER_PAGES ==>
                Translate(tables, pd, v) == if v == PgNo(upage) then Unmapped else old(Translate(tables, pd, v))
      ensures old(Valid(tables, used, pd)) ==>
                && Valid(tables, used, pd)
                && Owned(tables, pd) == old(Owned(tables, pd)) -
                     (if old(Translate(tables, pd, PgNo(upage))).Mapped?
                      then {old(Translate(tables, pd, PgNo(upage))).frame} else {})
      ensures forall t :: t in old(tables) && t !in old(Owned(tables, pd)) ==>
              t in tables && tables[t] == old(tables[t])
      ensures Entry(tables, pd, PgNo(upage)) / 2 == old(Entry(tables, pd, PgNo(upage))) / 2
      ensures tables[pd][USER_PDES..] == old(tables[pd][USER_PDES..])
    {
      var v := PgNo(upage);
      AddressSplit(upage);
      var pte := LookupPage(pd, upage, false, None);
      if pte.Pte? {
        OwnedTable(tables, pd, PdNo(upage));
        var w := tables[pte.table][pte.index];
        if IsPresent(w) {
          WithEntryUpdates(tables, pd, v, Cleared(w));
          if Valid(tables, used, pd) {
            ClearedValid(tables, used, pd, v);
          }
          var row: seq<nat> := tables[pte.table][pte.index := Cleared(w)];
          tables := tables[pte.table := row];
        }
      }
    }

    /**
     * `pagedir_destroy`: frees every mapped frame, every page table and the directory. `FreePage` insists that a page
     * is in use, so none is freed twice; the final set says that nothing else is freed.
     */
    method Destroy(pd: nat)
      requires Valid(tables, used, pd)
      modifies `used, `tables
      ensures used == old(used) - Owned(old(tables), pd)
      ensures tables == old(tables) - Owned(old(tables), pd)
    {
      ghost var m, u := tables, used;
      for i := 0 to USER_PDES
        invariant used == u - Gone(m, pd, i * WORDS, i)
        invariant tables == m - Gone(m, pd, i * WORDS, i)
      {
        TableStillUsed(m, u, pd, i * WORDS, i);
        if IsPresent(tables[pd][i]) {
          DestroyTable(m, u, pd, i);
        } else {
          assert PdeOk(m, pd, i);
          EmptyTable(m, pd, i);
        }
      }
      TableStillUsed(m, u, pd, USER_PAGES, USER_PDES);
      assert Owned(m, pd) == Gone(m, pd, USER_PAGES, USER_PDES) + {pd};
      FreePage(pd);
    }

    /** The body of the inner loop: frees the frame of one present entry. */
    method DestroyEntry(ghost m: Tables, ghost u: set<nat>, pd: nat, ghost i: nat, pt: nat, j: nat)
      requires Valid(m, u, pd) && i < USER_PDES && j < WORDS && m[pd][i] != 0 && pt == EntryPage(m[pd][i])
      requires used == u - Gone(m, pd, i * WORDS + j, i)
      requires tables == m - Gone(m, pd, i * WORDS + j, i)
      modifies `used, `tables
      ensures used == u - Gone(m, pd, i * WORDS + j + 1, i)
      ensures tables == m - Gone(m, pd, i * WORDS + j + 1, i)
    {
      ghost var v := i * WORDS + j;
      OwnedTable(m, pd, i);
      TableStillUsed(m, u, pd, v, i);
      OneMoreFrame(m, pd, v, i);
      var pte := tables[pt][j];
      if IsPresent(pte) {
        FrameStillUsed(m, u, pd, v, i);
        FreePage(EntryPage(pte));
      }
    }

    /** The inner loop of `pagedir_destroy`: one page table with its frames. */
    method DestroyTable(ghost m: Tables, ghost u: set<nat>, pd: nat, i: nat)
      requires Valid(m, u, pd) && i < USER_PDES && IsPresent(m[pd][i])
      requires used == u - Gone(m, pd, i * WORDS, i)
      requires tables == m - Gone(m, pd, i * WORDS, i)
      modifies `used, `tables
      ensures used == u - Gone(m, pd, (i + 1) * WORDS, i + 1)
      ensures tables == m - Gone(m, pd, (i + 1) * WORDS, i + 1)
    {
      TableStillUsed(m, u, pd, i * WORDS, i);
      var pt := EntryPage(tables[pd][i]);
      OwnedTable(m, pd, i);
      for j := 0 to WORDS
        invariant used == u - Gone(m, pd, i * WORDS + j, i)
        invariant tables == m - Gone(m, pd, i * WORDS + j, i)
      {
        DestroyEntry(m, u, pd, i, pt, j);
      }
      TableStillUsed(m, u, pd, (i + 1) * WORDS, i);
      OneMoreTable(m, pd, (i + 1) * WORDS, i);
      FreePage(pt);
    }
  }
}
