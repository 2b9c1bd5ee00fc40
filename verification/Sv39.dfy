/**
 Sv39 page-table entries as virtual_memory.c encodes them, and the table walk
 of sections 4.3.2 and 4.4 of the RISC-V Privileged Architecture, version
 20211203, which is the meaning of a table.
 */
module Sv39 {
  import opened Machine

  const KERNEL_VMA_START: u64 := 0xffff_ffc0_0000_0000
  const ENTRIES := 512

  const VALID := 1
  const READ := 2
  const WRITE := 4
  const EXEC := 8
  const USER := 16
  const ACCESSED := 64
  const DIRTY := 128
  const DONT_COMPRESS := 256

  /** The low ten bits of an entry. */
  type Flags = f: int | 0 <= f < 1024

  /** Page contents: the 512 entries of each page, by kernel address. */
  type Mem = map<u64, seq<u64>>

  predicate HasFlag(f: int, bit: int)
    requires bit > 0
  {
    (f / bit) % 2 == 1
  }

  // ---- entries, as the kernel builds and reads them ----

  function WithValid(f: Flags): Flags {
    if f % 2 == 1 then f else f + VALID
  }

  function CreateLeaf(phys: u64, flags: Flags): u64 {
    if flags == 0 then 0
    else (Sub64(phys, KERNEL_VMA_START) / PAGE_SIZE * 1024) % TWO_TO_64 + WithValid(flags)
  }

  function CreateBranch(table: u64): u64 {
    (Sub64(table, KERNEL_VMA_START) / PAGE_SIZE * 1024) % TWO_TO_64 + VALID
  }

  function Ppn(e: u64): nat {
    (e / 1024) % 0x1000_0000_0000
  }

  /** The kernel address at which physical frame `ppn` is visible. */
  function Alias(ppn: nat): u64 {
    (ppn * PAGE_SIZE + KERNEL_VMA_START) % TWO_TO_64
  }

  function LeafFlags(e: u64): Flags {
    e % 1024
  }

  predicate IsBranch(e: u64) {
    LeafFlags(e) == VALID
  }

  /** get_branch_loc: 0 when the entry is not a branch. */
  function BranchLoc(e: u64): u64 {
    if !IsBranch(e) then 0 else Alias(Ppn(e))
  }

  /** get_phys_leaf_loc: 0 when the entry is not a leaf. */
  function PhysLeafLoc(e: u64): u64 {
    if LeafFlags(e) <= VALID then 0 else Alias(Ppn(e))
  }

  /** A page of the kernel's linear mapping, as pg_alloc returns them. */
  predicate IsKernelPage(a: u64) {
    a >= KERNEL_VMA_START && a % PAGE_SIZE == 0
  }

  /** A branch entry leads back to a table exactly when the table is page
      aligned and its physical address fits the 56-bit physical space. */
  lemma BranchRoundTrip(table: u64)
    ensures CreateBranch(table) < TWO_TO_64 && IsBranch(CreateBranch(table))
    ensures BranchLoc(CreateBranch(table)) == table
       <==> table % PAGE_SIZE == 0 && Sub64(table, KERNEL_VMA_START) < 0x100_0000_0000_0000
  {
    var off := Sub64(table, KERNEL_VMA_START);
    assert off / PAGE_SIZE * 1024 < TWO_TO_64;
    assert CreateBranch(table) / 1024 == off / PAGE_SIZE;
    assert off % PAGE_SIZE == table % PAGE_SIZE;
  }

  // ---- the architecture's view ----

  datatype Translation = Fault | Mapped(ppn: nat, flags: Flags)

  type Level = l: int | 0 <= l < 3

  /** Pages covered by one entry at a level. */
  function Span(level: Level): nat {
    match level case 0 => 1 case 1 => 512 case 2 => 262144
  }

  /** VPN[level] of a page number. */
  function Slot(page: nat, level: Level): nat {
    match level case 0 => page % ENTRIES case 1 => page / 512 % ENTRIES case 2 => page / 262144 % ENTRIES
  }

  /** The part of a page number below VPN[level]: its remainder modulo
      `Span(level)`. */
  function Offset(page: nat, level: Level): nat {
    match level case 0 => 0 case 1 => page % 512 case 2 => page % 262144
  }

  /** The walk from the table at address `table` for virtual page `page`. */
  ghost function Walk(m: Mem, table: u64, level: Level, page: nat): Translation
    decreases level, 1
  {
    if table !in m || |m[table]| != ENTRIES then Fault
    else EntryWalk(m, m[table][Slot(page, level)], level, page)
  }

  ghost function EntryWalk(m: Mem, e: u64, level: Level, page: nat): Translation
    decreases level, 0
  {
    if !HasFlag(e, VALID) || (!HasFlag(e, READ) && HasFlag(e, WRITE)) then Fault
    else if e >= 0x40_0000_0000_0000 then Fault // reserved high bits
    else if HasFlag(e, READ) || HasFlag(e, EXEC) then
      if Offset(Ppn(e), level) != 0 then Fault // misaligned superpage
      else Mapped(Ppn(e) + Offset(page, level), LeafFlags(e))
    else if level == 0 then Fault
    else Walk(m, Alias(Ppn(e)), level - 1, page)
  }

  // ---- well-formed tables ----

  predicate LeafFlagsOk(f: Flags) {
    && HasFlag(f, VALID)
    && (HasFlag(f, READ) || HasFlag(f, EXEC))
    && (HasFlag(f, WRITE) ==> HasFlag(f, READ))
  }

  predicate EntryOk(e: u64, level: Level) {
    e < 0x40_0000_0000_0000 &&
    if IsBranch(e) then level > 0 && IsKernelPage(BranchLoc(e))
    else e == 0 || (LeafFlagsOk(LeafFlags(e)) && Offset(Ppn(e), level) == 0)
  }

  /** The table pages reachable from `table`, which sits at `level`. */
  ghost function Pages(m: Mem, table: u64, level: Level): set<u64>
    decreases level, 1
  {
    {table} + if table !in m then {} else
      set i, p | 0 <= i < |m[table]| && p in EntryPages(m, m[table][i], level) :: p
  }

  ghost function EntryPages(m: Mem, e: u64, level: Level): set<u64>
    decreases level, 0
  {
    if level == 0 || !IsBranch(e) then {} else Pages(m, BranchLoc(e), level - 1)
  }

  /** `table` is the root of an unshared tree of tables. */
  ghost predicate Tree(m: Mem, table: u64, level: Level)
    decreases level, 1
  {
    && IsKernelPage(table)
    && table in m && |m[table]| == ENTRIES
    && (forall i :: 0 <= i < ENTRIES ==>
          EntryTree(m, m[table][i], level) && table !in EntryPages(m, m[table][i], level))
    && (forall i, j :: 0 <= i < j < ENTRIES ==>
          EntryPages(m, m[table][i], level) !! EntryPages(m, m[table][j], level))
  }

  ghost predicate EntryTree(m: Mem, e: u64, level: Level)
    decreases level, 0
  {
    EntryOk(e, level) && (IsBranch(e) ==> Tree(m, BranchLoc(e), level - 1))
  }

  // ---- what a change of memory does to a tree ----

  ghost predicate Agree(m: Mem, n: Mem, pages: set<u64>) {
    forall p :: p in pages ==> p in m && p in n && m[p] == n[p]
  }

  /** A tree means the same in every memory that agrees on its pages. */
  lemma {:induction false} Frame(m: Mem, n: Mem, table: u64, level: Level)
    requires Tree(m, table, level)
    requires Agree(m, n, Pages(m, table, level))
    ensures Tree(n, table, level)
    ensures Pages(n, table, level) == Pages(m, table, level)
    ensures forall page: nat :: Walk(n, table, level, page) == Walk(m, table, level, page)
    decreases level, 1
  {
    assert n[table] == m[table];
    forall i | 0 <= i < ENTRIES
      ensures EntryTree(n, m[table][i], level)
      ensures EntryPages(n, m[table][i], level) == EntryPages(m, m[table][i], level)
      ensures forall page: nat :: EntryWalk(n, m[table][i], level, page) == EntryWalk(m, m[table][i], level, page)
    {
      assert EntryPages(m, m[table][i], level) <= Pages(m, table, level);
      EntryFrame(m, n, m[table][i], level);
    }
  }

  lemma {:induction false} EntryFrame(m: Mem, n: Mem, e: u64, level: Level)
    requires EntryTree(m, e, level)
    requires Agree(m, n, EntryPages(m, e, level))
    ensures EntryTree(n, e, level)
    ensures EntryPages(n, e, level) == EntryPages(m, e, level)
    ensures forall page: nat :: EntryWalk(n, e, level, page) == EntryWalk(m, e, level, page)
    decreases level, 0
  {
    if IsBranch(e) {
      BranchIsPointer(e);
      Frame(m, n, BranchLoc(e), level - 1);
    } else if e != 0 {
      LeafIsLeaf(e);
    }
  }

  /** The flag bits of an entry are those of its low ten bits. */
  lemma BitsOfLow(e: u64)
    ensures HasFlag(e, VALID) == HasFlag(LeafFlags(e), VALID)
    ensures HasFlag(e, READ) == HasFlag(LeafFlags(e), READ)
    ensures HasFlag(e, WRITE) == HasFlag(LeafFlags(e), WRITE)
    ensures HasFlag(e, EXEC) == HasFlag(LeafFlags(e), EXEC)
  {
    var q, f := e / 1024, e % 1024;
    assert e == q * 1024 + f;
    SameBit0(q, f);
    SameBit1(q, f);
    SameBit2(q, f);
    SameBit3(q, f);
  }

  lemma SameBit0(q: nat, f: nat)
    ensures HasFlag(q * 1024 + f, VALID) == HasFlag(f, VALID)
  {
  }

  lemma SameBit1(q: nat, f: nat)
    ensures HasFlag(q * 1024 + f, READ) == HasFlag(f, READ)
  {
    assert (q * 1024 + f) / 2 == q * 512 + f / 2;
  }

  lemma SameBit2(q: nat, f: nat)
    ensures HasFlag(q * 1024 + f, WRITE) == HasFlag(f, WRITE)
  {
    assert (q * 1024 + f) / 4 == q * 256 + f / 4;
  }

  lemma SameBit3(q: nat, f: nat)
    ensures HasFlag(q * 1024 + f, EXEC) == HasFlag(f, EXEC)
  {
    assert (q * 1024 + f) / 8 == q * 128 + f / 8;
  }

  lemma BranchIsPointer(e: u64)
    requires IsBranch(e)
    ensures HasFlag(e, VALID) && !HasFlag(e, READ) && !HasFlag(e, WRITE) && !HasFlag(e, EXEC)
  {
    BitsOfLow(e);
  }

  /** A well-formed branch is walked through. */
  lemma BranchWalk(m: Mem, e: u64, level: Level, page: nat)
    requires IsBranch(e) && e < 0x40_0000_0000_0000 && level > 0
    ensures EntryWalk(m, e, level, page) == Walk(m, BranchLoc(e), level - 1, page)
  {
    BranchIsPointer(e);
  }

  lemma LeafIsLeaf(e: u64)
    requires LeafFlagsOk(LeafFlags(e))
    ensures HasFlag(e, VALID) && (HasFlag(e, READ) || HasFlag(e, EXEC)) && (HasFlag(e, WRITE) ==> HasFlag(e, READ))
  {
    BitsOfLow(e);
  }

  /** `n` differs from `m` in entry `i` of `table` and in what lies below it. */
  ghost predicate Grafted(m: Mem, n: Mem, table: u64, level: Level, i: nat, e: u64) {
    && Tree(m, table, level) && i < ENTRIES
    && table in n && n[table] == m[table][i := e]
    && (forall p :: p in Pages(m, table, level) && p != table && p !in EntryPages(m, m[table][i], level)
          ==> p in m && p in n && n[p] == m[p])
    && EntryTree(n, e, level) && table !in EntryPages(n, e, level)
    && (forall p :: p in EntryPages(n, e, level) && p in Pages(m, table, level)
          ==> p in EntryPages(m, m[table][i], level))
  }

  /** The subtrees beside a graft are untouched. */
  lemma GraftSibling(m: Mem, n: Mem, table: u64, level: Level, i: nat, e: u64, j: nat)
    requires Grafted(m, n, table, level, i, e)
    requires j < ENTRIES && j != i
    ensures EntryTree(n, m[table][j], level)
    ensures EntryPages(n, m[table][j], level) == EntryPages(m, m[table][j], level)
    ensures forall page: nat :: EntryWalk(n, m[table][j], level, page) == EntryWalk(m, m[table][j], level, page)
    ensures EntryPages(m, m[table][j], level) <= Pages(m, table, level)
    ensures EntryPages(m, m[table][j], level) !! EntryPages(m, m[table][i], level)
    ensures EntryPages(m, m[table][j], level) !! EntryPages(n, e, level)
    ensures table !in EntryPages(m, m[table][j], level)
  {
    assert EntryPages(m, m[table][j], level) <= Pages(m, table, level);
    assert EntryPages(m, m[table][j], level) !! EntryPages(m, m[table][i], level) by {
      if j < i {
      } else {
      }
    }
    EntryFrame(m, n, m[table][j], level);
  }

  lemma GraftTree(m: Mem, n: Mem, table: u64, level: Level, i: nat, e: u64)
    requires Grafted(m, n, table, level, i, e)
    ensures Tree(n, table, level)
  {
    forall j | 0 <= j < ENTRIES
      ensures EntryTree(n, n[table][j], level) && table !in EntryPages(n, n[table][j], level)
    {
      if j != i {
        GraftSibling(m, n, table, level, i, e, j);
      }
    }
    forall j, k | 0 <= j < k < ENTRIES
      ensures EntryPages(n, n[table][j], level) !! EntryPages(n, n[table][k], level)
    {
      if j != i {
        GraftSibling(m, n, table, level, i, e, j);
      }
      if k != i {
        GraftSibling(m, n, table, level, i, e, k);
      }
    }
  }

  lemma GraftPage(m: Mem, n: Mem, table: u64, level: Level, i: nat, e: u64, p: u64)
    requires Grafted(m, n, table, level, i, e) && p != table
    ensures p in Pages(n, table, level)
       <==> p in EntryPages(n, e, level) || (p in Pages(m, table, level) && p !in EntryPages(m, m[table][i], level))
  {
    if p in Pages(n, table, level) {
      var j :| 0 <= j < ENTRIES && p in EntryPages(n, n[table][j], level);
      if j != i {
        GraftSibling(m, n, table, level, i, e, j);
      }
    }
    if p in Pages(m, table, level) && p !in EntryPages(m, m[table][i], level) {
      var j :| 0 <= j < ENTRIES && p in EntryPages(m, m[table][j], level);
      GraftSibling(m, n, table, level, i, e, j);
      assert p in EntryPages(n, n[table][j], level);
    }
    if p in EntryPages(n, e, level) {
      assert p in EntryPages(n, n[table][i], level);
    }
  }

  lemma GraftPages(m: Mem, n: Mem, table: u64, level: Level, i: nat, e: u64)
    requires Grafted(m, n, table, level, i, e)
    ensures Pages(n, table, level)
         == Pages(m, table, level) - EntryPages(m, m[table][i], level) + EntryPages(n, e, level)
  {
    var after := Pages(m, table, level) - EntryPages(m, m[table][i], level) + EntryPages(n, e, level);
    assert table in after && table in Pages(n, table, level);
    forall p
      ensures p in Pages(n, table, level) <==> p in after
    {
      if p != table {
        GraftPage(m, n, table, level, i, e, p);
      }
    }
  }

  /** Replacing one entry, together with the subtree below it, keeps the tree,
      exchanges exactly the subtree's pages, and changes the walk of exactly the
      pages under that entry. */
  lemma Graft(m: Mem, n: Mem, table: u64, level: Level, i: nat, e: u64)
    requires Grafted(m, n, table, level, i, e)
    ensures Tree(n, table, level)
    ensures Pages(n, table, level)
         == Pages(m, table, level) - EntryPages(m, m[table][i], level) + EntryPages(n, e, level)
    ensures forall page: nat :: Walk(n, table, level, page) ==
              if Slot(page, level) == i then EntryWalk(n, e, level, page) else Walk(m, table, level, page)
  {
    GraftTree(m, n, table, level, i, e);
    GraftPages(m, n, table, level, i, e);
    forall page: nat
      ensures Walk(n, table, level, page) ==
              if Slot(page, level) == i then EntryWalk(n, e, level, page) else Walk(m, table, level, page)
    {
      if Slot(page, level) != i {
        GraftSibling(m, n, table, level, i, e, Slot(page, level));
      }
    }
  }
}
