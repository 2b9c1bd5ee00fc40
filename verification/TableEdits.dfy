/**
 The four edits that vma_replace_section makes to a tree of page tables
 (splitting a leaf, writing small pages, and emptying a table at either of two
 levels), each with its effect on the tree, its pages and its meaning.
 */
module TableEdits {
  import opened Machine
  import opened Sv39
  import opened Sets

  /** Virtual page numbers of a 39-bit address space. */
  const PAGES := 0x800_0000

  /** Bytes covered by one entry at a level. */
  function EntryBytes(level: Level): u64 {
    PAGE_SIZE * Span(level)
  }

  /** The table that expand_leaf builds in place of the leaf `e`. */
  function Expanded(e: u64, jump: u64): (row: seq<u64>)
    ensures |row| == ENTRIES
  {
    seq(ENTRIES, i requires 0 <= i < ENTRIES =>
      CreateLeaf(Add64(PhysLeafLoc(e), (i * (jump / ENTRIES)) % TWO_TO_64), LeafFlags(e)))
  }

  ghost predicate SameWalk(m: Mem, n: Mem, table: u64, level: Level) {
    forall page: nat :: Walk(n, table, level, page) == Walk(m, table, level, page)
  }

  // ---- splitting a leaf ----

  /** The i-th piece of an aligned superpage is aligned and stays in the
      physical space. */
  lemma PieceInRange(ppn: nat, level: Level, i: nat)
    requires level > 0 && ppn < 0x1000_0000_0000 && Offset(ppn, level) == 0 && i < ENTRIES
    ensures ppn + i * Span(level - 1) < 0x1000_0000_0000
    ensures Offset(ppn + i * Span(level - 1), level - 1) == 0
    ensures i * (EntryBytes(level) / ENTRIES) == PAGE_SIZE * (i * Span(level - 1))
  {
    if level == 1 {
      assert Span(level) == 512 && Span(level - 1) == 1;
    } else {
      assert Span(level) == 262144 && Span(level - 1) == 512;
    }
  }

  /** Entry `i` of a split leaf maps the i-th piece of what the leaf mapped. */
  lemma ExpandedEntry(e: u64, level: Level, i: nat)
    requires level > 0 && EntryOk(e, level) && !IsBranch(e) && i < ENTRIES
    ensures Expanded(e, EntryBytes(level))[i] ==
            if e == 0 then 0 else (Ppn(e) + i * Span(level - 1)) * 1024 + LeafFlags(e)
  {
    if e != 0 {
      PieceInRange(Ppn(e), level, i);
      LeafEntry(Ppn(e), i * Span(level - 1), LeafFlags(e));
    }
  }

  lemma KernelBranch(b: u64)
    requires IsKernelPage(b)
    ensures CreateBranch(b) < 0x40_0000_0000_0000
    ensures IsBranch(CreateBranch(b)) && BranchLoc(CreateBranch(b)) == b
  {
    assert Sub64(b, KERNEL_VMA_START) == b - KERNEL_VMA_START;
    BranchRoundTrip(b);
  }

  lemma LeafEntry(ppn: nat, step: nat, flags: Flags)
    requires ppn + step < 0x1000_0000_0000 && flags % 2 == 1
    ensures CreateLeaf(Add64(Alias(ppn), PAGE_SIZE * step % TWO_TO_64), flags) == (ppn + step) * 1024 + flags
    ensures Ppn((ppn + step) * 1024 + flags) == ppn + step
    ensures LeafFlags((ppn + step) * 1024 + flags) == flags
  {
    var phys := (ppn + step) * PAGE_SIZE;
    assert phys < TWO_TO_64;
    assert PAGE_SIZE * step % TWO_TO_64 == step * PAGE_SIZE;
    AddressOffset(ppn * PAGE_SIZE, step * PAGE_SIZE);
    assert Sub64(Add64(Alias(ppn), step * PAGE_SIZE), KERNEL_VMA_START) == phys;
    assert phys / PAGE_SIZE == ppn + step;
  }

  lemma AddressOffset(a: nat, b: nat)
    requires a + b < TWO_TO_64
    ensures Sub64(Add64((a + KERNEL_VMA_START) % TWO_TO_64, b), KERNEL_VMA_START) == a + b
  {
  }

  /** ... so it is a well-formed leaf of the level below, and translates the
      pages it covers as the original did. */
  lemma PieceWalk(m: Mem, n: Mem, e: u64, level: Level, i: nat, page: nat)
    requires level > 0 && EntryOk(e, level) && !IsBranch(e) && i < ENTRIES
    ensures var x := Expanded(e, EntryBytes(level))[i];
            && EntryOk(x, level - 1) && !IsBranch(x)
            && (Slot(page, level - 1) == i ==> EntryWalk(n, x, level - 1, page) == EntryWalk(m, e, level, page))
  {
    ExpandedEntry(e, level, i);
    if e != 0 {
      var x := Expanded(e, EntryBytes(level))[i];
      PieceInRange(Ppn(e), level, i);
      LeafEntry(Ppn(e), i * Span(level - 1), LeafFlags(e));
      LeafIsLeaf(e);
      LeafIsLeaf(x);
      SplitOffset(page, level);
    }
  }

  lemma SplitOffset(page: nat, level: Level)
    requires level > 0
    ensures Offset(page, level) == Slot(page, level - 1) * Span(level - 1) + Offset(page, level - 1)
  {
    if level == 1 {
      assert Span(level) == 512 && Span(level - 1) == 1;
    } else {
      assert Span(level) == 262144 && Span(level - 1) == 512;
    }
  }

  /** The new table is a tree of its own. */
  lemma ExpandedTree(n: Mem, e: u64, level: Level, b: u64)
    requires level > 0 && EntryOk(e, level) && !IsBranch(e)
    requires IsKernelPage(b) && b in n && n[b] == Expanded(e, EntryBytes(level))
    ensures Tree(n, b, level - 1) && Pages(n, b, level - 1) == {b}
  {
    forall i | 0 <= i < ENTRIES
      ensures EntryOk(n[b][i], level - 1) && !IsBranch(n[b][i])
      ensures EntryPages(n, n[b][i], level - 1) == {}
    {
      PieceWalk(n, n, e, level, i, 0);
    }
  }

  /** A split leaf translates every page as the leaf did. */
  lemma ExpandedWalk(m: Mem, n: Mem, e: u64, level: Level, b: u64)
    requires level > 0 && EntryOk(e, level) && !IsBranch(e)
    requires IsKernelPage(b) && b in n && n[b] == Expanded(e, EntryBytes(level))
    ensures EntryTree(n, CreateBranch(b), level)
    ensures EntryPages(n, CreateBranch(b), level) == {b}
    ensures forall page: nat :: EntryWalk(n, CreateBranch(b), level, page) == EntryWalk(m, e, level, page)
  {
    KernelBranch(b);
    ExpandedTree(n, e, level, b);
    forall page: nat
      ensures EntryWalk(n, CreateBranch(b), level, page) == EntryWalk(m, e, level, page)
    {
      BranchWalk(n, CreateBranch(b), level, page);
      PieceWalk(m, n, e, level, Slot(page, level - 1), page);
    }
  }

  lemma ExpandAt(m: Mem, n: Mem, table: u64, level: Level, i: nat, b: u64)
    requires Tree(m, table, level) && level > 0 && i < ENTRIES && !IsBranch(m[table][i])
    requires IsKernelPage(b) && b !in Pages(m, table, level)
    requires n == m[b := Expanded(m[table][i], EntryBytes(level))][table := m[table][i := CreateBranch(b)]]
    ensures Tree(n, table, level)
    ensures Pages(n, table, level) == Pages(m, table, level) + {b}
    ensures SameWalk(m, n, table, level)
    ensures BranchLoc(n[table][i]) == b && IsBranch(n[table][i])
  {
    KernelBranch(b);
    ExpandedWalk(m, n, m[table][i], level, b);
    TreePagesInMem(m, table, level);
    Graft(m, n, table, level, i, CreateBranch(b));
  }

  /** Every page of a tree is present in memory. */
  lemma {:induction false} TreePagesInMem(m: Mem, table: u64, level: Level)
    requires Tree(m, table, level)
    ensures forall p :: p in Pages(m, table, level) ==> p in m && |m[p]| == ENTRIES && IsKernelPage(p)
    decreases level
  {
    forall p | p in Pages(m, table, level)
      ensures p in m && |m[p]| == ENTRIES && IsKernelPage(p)
    {
      if p != table {
        var i :| 0 <= i < ENTRIES && p in EntryPages(m, m[table][i], level);
        TreePagesInMem(m, BranchLoc(m[table][i]), level - 1);
      }
    }
  }

  // ---- a change below a table, seen from the table ----

  /** The child at entry `i` was rebuilt; the rest of `table`'s tree was not. */
  lemma Lift(m: Mem, n: Mem, table: u64, level: Level, i: nat)
    requires Tree(m, table, level) && level > 0 && i < ENTRIES && IsBranch(m[table][i])
    requires table in n && n[table] == m[table]
    requires forall p :: p in Pages(m, table, level) && p !in Pages(m, BranchLoc(m[table][i]), level - 1)
               ==> p in m && p in n && n[p] == m[p]
    requires Tree(n, BranchLoc(m[table][i]), level - 1)
    requires forall p :: p in Pages(n, BranchLoc(m[table][i]), level - 1) && p in Pages(m, table, level)
               ==> p in Pages(m, BranchLoc(m[table][i]), level - 1)
    ensures Tree(n, table, level)
    ensures Pages(n, table, level)
         == Pages(m, table, level) - Pages(m, BranchLoc(m[table][i]), level - 1)
            + Pages(n, BranchLoc(m[table][i]), level - 1)
    ensures forall page: nat :: Walk(n, table, level, page) ==
              if Slot(page, level) == i then Walk(n, BranchLoc(m[table][i]), level - 1, page)
              else Walk(m, table, level, page)
  {
    var e := m[table][i];
    BranchIsPointer(e);
    assert table in Pages(m, table, level);
    assert m[table][i := e] == m[table];
    assert EntryPages(m, e, level) == Pages(m, BranchLoc(e), level - 1);
    assert EntryPages(n, e, level) == Pages(n, BranchLoc(e), level - 1);
    Graft(m, n, table, level, i, e);
  }

  /** Facts about a child that the tree of its parent carries. */
  lemma ChildFacts(m: Mem, table: u64, level: Level, i: nat)
    requires Tree(m, table, level) && level > 0 && i < ENTRIES && IsBranch(m[table][i])
    ensures Tree(m, BranchLoc(m[table][i]), level - 1)
    ensures table !in Pages(m, BranchLoc(m[table][i]), level - 1)
    ensures Pages(m, BranchLoc(m[table][i]), level - 1) <= Pages(m, table, level)
    ensures BranchLoc(m[table][i]) in Pages(m, BranchLoc(m[table][i]), level - 1)
    ensures forall page: nat :: Slot(page, level) == i ==>
              Walk(m, table, level, page) == Walk(m, BranchLoc(m[table][i]), level - 1, page)
  {
    BranchIsPointer(m[table][i]);
    assert EntryTree(m, m[table][i], level);
    assert EntryPages(m, m[table][i], level) == Pages(m, BranchLoc(m[table][i]), level - 1);
  }

  /** Emptying an entry whose table holds nothing. */
  lemma CollapseAt(m: Mem, n: Mem, table: u64, level: Level, i: nat)
    requires Tree(m, table, level) && level > 0 && i < ENTRIES && IsBranch(m[table][i])
    requires EmptyRow(m, BranchLoc(m[table][i]))
    requires n == m[table := m[table][i := 0]]
    ensures Tree(n, table, level)
    ensures Pages(n, table, level) == Pages(m, table, level) - {BranchLoc(m[table][i])}
    ensures SameWalk(m, n, table, level)
  {
    var e := m[table][i];
    assert EntryTree(m, e, level);
    EmptyEntry(m, e, level);
    TreePagesInMem(m, table, level);
    SwapGone(Pages(m, table, level), {BranchLoc(e)});
    Graft(m, n, table, level, i, 0);
  }

  ghost predicate EmptyRow(m: Mem, t: u64) {
    t in m && forall k :: 0 <= k < |m[t]| ==> m[t][k] == 0
  }

  /** A branch to an empty table owns that table and translates nothing. */
  lemma EmptyEntry(m: Mem, e: u64, level: Level)
    requires EntryTree(m, e, level) && IsBranch(e)
    requires EmptyRow(m, BranchLoc(e))
    ensures EntryPages(m, e, level) == {BranchLoc(e)}
    ensures forall page: nat :: EntryWalk(m, e, level, page) == Fault
  {
    forall page: nat
      ensures EntryWalk(m, e, level, page) == Fault
    {
      BranchWalk(m, e, level, page);
      assert m[BranchLoc(e)][Slot(page, level - 1)] == 0;
    }
  }

  /** Rewriting a table whose entries are leaves or empty. */
  lemma WriteAt(m: Mem, n: Mem, table: u64, level: Level, i: nat, row: seq<u64>)
    requires Tree(m, table, level) && level > 0 && i < ENTRIES && IsBranch(m[table][i])
    requires BranchLoc(m[table][i]) in m && FlatRow(m[BranchLoc(m[table][i])], level - 1)
    requires FlatRow(row, level - 1)
    requires n == m[BranchLoc(m[table][i]) := row]
    ensures Tree(n, table, level) && Pages(n, table, level) == Pages(m, table, level)
    ensures forall page: nat :: Walk(n, table, level, page) ==
              if Slot(page, level) == i then EntryWalk(n, row[Slot(page, level - 1)], level - 1, page)
              else Walk(m, table, level, page)
  {
    ChildFacts(m, table, level, i);
    TreePagesInMem(m, table, level);
    FlatTable(m, BranchLoc(m[table][i]), level - 1);
    FlatTable(n, BranchLoc(m[table][i]), level - 1);
    assert n[table] == m[table];
    SwapSame(Pages(m, table, level), Pages(m, BranchLoc(m[table][i]), level - 1));
    Lift(m, n, table, level, i);
  }

  /** A row without branches. */
  predicate FlatRow(row: seq<u64>, level: Level) {
    |row| == ENTRIES && forall k :: 0 <= k < ENTRIES ==> EntryOk(row[k], level) && !IsBranch(row[k])
  }

  lemma FlatTable(m: Mem, t: u64, level: Level)
    requires IsKernelPage(t) && t in m && FlatRow(m[t], level)
    ensures Tree(m, t, level) && Pages(m, t, level) == {t}
    ensures forall page: nat :: Walk(m, t, level, page) == EntryWalk(m, m[t][Slot(page, level)], level, page)
  {
  }

  // ---- the same edits one level further down, seen from two levels up ----

  /** `table` at `level`, its child at entry `i`. */
  ghost predicate HasChild(m: Mem, table: u64, level: Level, i: nat, child: u64) {
    && Tree(m, table, level) && level > 0 && i < ENTRIES
    && IsBranch(m[table][i]) && BranchLoc(m[table][i]) == child
    && Tree(m, child, level - 1)
  }

  /** Only the tree of `child` changed, and it took only new pages. */
  lemma LiftChild(m: Mem, n: Mem, table: u64, level: Level, i: nat, child: u64, touched: set<u64>)
    requires HasChild(m, table, level, i, child)
    requires Tree(n, child, level - 1)
    requires forall p :: p in m && p !in touched ==> p in n && n[p] == m[p]
    requires forall p :: p in touched && p in Pages(m, table, level) ==> p in Pages(m, child, level - 1)
    requires forall p :: p in Pages(n, child, level - 1) ==> p in touched || p in Pages(m, child, level - 1)
    ensures Tree(n, table, level)
    ensures Pages(n, table, level)
         == Pages(m, table, level) - Pages(m, child, level - 1) + Pages(n, child, level - 1)
    ensures Pages(m, child, level - 1) <= Pages(m, table, level)
    ensures forall page: nat :: Walk(n, table, level, page) ==
              if Slot(page, level) == i then Walk(n, child, level - 1, page) else Walk(m, table, level, page)
    ensures forall page: nat :: Slot(page, level) == i ==>
              Walk(m, table, level, page) == Walk(m, child, level - 1, page)
  {
    ChildFacts(m, table, level, i);
    TreePagesInMem(m, table, level);
    Lift(m, n, table, level, i);
  }

  lemma ExpandUnder(m: Mem, n: Mem, table: u64, level: Level, i: nat, child: u64, j: nat, b: u64)
    requires HasChild(m, table, level, i, child) && level > 1
    requires j < ENTRIES && !IsBranch(m[child][j])
    requires IsKernelPage(b) && b !in Pages(m, table, level)
    requires n == m[b := Expanded(m[child][j], EntryBytes(level - 1))][child := m[child][j := CreateBranch(b)]]
    ensures Tree(n, table, level)
    ensures Pages(n, table, level) == Pages(m, table, level) + {b}
    ensures SameWalk(m, n, table, level)
    ensures Tree(n, child, level - 1)
    ensures IsBranch(n[child][j]) && BranchLoc(n[child][j]) == b
  {
    ChildFacts(m, table, level, i);
    ExpandAt(m, n, child, level - 1, j, b);
    assert child in Pages(m, child, level - 1);
    SwapGrown(Pages(m, table, level), Pages(m, child, level - 1), {b});
    LiftChild(m, n, table, level, i, child, {b, child});
  }

  lemma CollapseUnder(m: Mem, n: Mem, table: u64, level: Level, i: nat, child: u64, j: nat)
    requires HasChild(m, table, level, i, child) && level > 1
    requires j < ENTRIES && IsBranch(m[child][j])
    requires EmptyRow(m, BranchLoc(m[child][j]))
    requires n == m[child := m[child][j := 0]]
    ensures Tree(n, table, level)
    ensures Pages(n, table, level) == Pages(m, table, level) - {BranchLoc(m[child][j])}
    ensures SameWalk(m, n, table, level)
    ensures Tree(n, child, level - 1)
  {
    ChildFacts(m, table, level, i);
    ChildFacts(m, child, level - 1, j);
    CollapseAt(m, n, child, level - 1, j);
    SwapShrunk(Pages(m, table, level), Pages(m, child, level - 1), {BranchLoc(m[child][j])});
    LiftChild(m, n, table, level, i, child, {child});
  }

  lemma WriteUnder(m: Mem, n: Mem, table: u64, level: Level, i: nat, child: u64, j: nat, row: seq<u64>)
    requires HasChild(m, table, level, i, child) && level > 1
    requires j < ENTRIES && IsBranch(m[child][j])
    requires BranchLoc(m[child][j]) in m && FlatRow(m[BranchLoc(m[child][j])], level - 2)
    requires FlatRow(row, level - 2)
    requires n == m[BranchLoc(m[child][j]) := row]
    ensures Tree(n, table, level)
    ensures Pages(n, table, level) == Pages(m, table, level)
    ensures forall page: nat :: Walk(n, table, level, page) ==
              if Slot(page, level) == i && Slot(page, level - 1) == j
              then EntryWalk(n, row[Slot(page, level - 2)], level - 2, page)
              else Walk(m, table, level, page)
    ensures Tree(n, child, level - 1)
  {
    ChildFacts(m, table, level, i);
    ChildFacts(m, child, level - 1, j);
    WriteAt(m, n, child, level - 1, j, row);
    SwapSame(Pages(m, table, level), Pages(m, child, level - 1));
    LiftChild(m, n, table, level, i, child, {BranchLoc(m[child][j])});
  }
}
