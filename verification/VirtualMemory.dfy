/**
 The page-table editor: expand_leaf, shrink_branch and vma_replace_section over
 the pages that hold tables, for requests inside one 2 MiB window.
 */
module VirtualMemory {
  import opened Machine
  import opened Sv39
  import opened TableEdits

  /** The level of a root table. */
  const TOP: Level := 2

  const USER_TOP: u64 := 0x40_0000_0000
  const SPACE_TOP: u64 := 0x80_0000_0000

  predicate IsKernelSpace(va: u64) {
    va >= KERNEL_VMA_START
  }

  /** A virtual address with the kernel half moved next to the user half: the low
      39 bits of a canonical address. */
  function Normal(va: u64): u64 {
    if IsKernelSpace(va) then Sub64(va, KERNEL_VMA_START - USER_TOP) else va
  }

  /** The request leaves its half of the address space. */
  predicate OutOfBounds(va: u64, size: u64) {
    || size > SPACE_TOP / 2
    || Normal(va) > (if IsKernelSpace(va) then SPACE_TOP else USER_TOP) - size
  }

  /** A non-empty page-aligned request shorter than 2 MiB, inside one 2 MiB window
      and not starting on a 1 GiB boundary. */
  predicate InWindow(va: u64, size: u64) {
    var page := Normal(va) / PAGE_SIZE;
    var count := size / PAGE_SIZE;
    && Normal(va) % PAGE_SIZE == 0 && size % PAGE_SIZE == 0
    && 0 < count < 512
    && page % 512 + count <= 512
    && page % 262144 != 0
  }

  /** Access flags of a request: none, which unmaps, or those of a leaf. */
  predicate RequestFlagsOk(flags: Flags) {
    flags == 0 || LeafFlagsOk(flags)
  }

  /** The frames of a mapping request are 56-bit physical addresses. */
  predicate FramesOk(phys: u64, size: u64, flags: Flags) {
    flags != 0 ==> Sub64(phys, KERNEL_VMA_START) + size <= 0x100_0000_0000_0000
  }

  function FrameOf(phys: u64): nat {
    Sub64(phys, KERNEL_VMA_START) / PAGE_SIZE
  }

  /** What `page` should translate to after `count` pages from `first` are given
      the frames from `frame` on. */
  ghost function Override(m: Mem, root: u64, first: nat, count: nat, frame: nat, flags: Flags, page: nat): Translation {
    if !(first <= page < first + count) then Walk(m, root, TOP, page)
    else if flags == 0 then Fault
    else Mapped(frame + (page - first), flags)
  }

  /** `n` translates the pages of the request as requested and every other page
      of the 39-bit space as `m` does. */
  ghost predicate Edited(m: Mem, n: Mem, root: u64, first: nat, count: nat, frame: nat, flags: Flags) {
    forall page: nat :: page < PAGES ==>
      Walk(n, root, TOP, page) == Override(m, root, first, count, frame, flags, page)
  }

  /** After the request the 2 MiB window of `first` would be one uniform,
      compressible mapping of consecutive frames. */
  ghost predicate LeavesUniform(m: Mem, root: u64, first: nat, count: nat, frame: nat, flags: Flags) {
    var window := first / 512 * 512;
    var head := Override(m, root, first, count, frame, flags, window);
    && head.Mapped? && !HasFlag(head.flags, DONT_COMPRESS)
    && forall page: nat :: window <= page < window + 512 ==>
         Override(m, root, first, count, frame, flags, page) == Mapped(head.ppn + (page - window), head.flags)
  }

  /** The 2 MiB window at entry `i1` below entry `i2` of the root lies under a
      superpage that must not be split. */
  ghost predicate PinnedSuperpage(m: Mem, root: u64, i2: nat, i1: nat)
    requires Tree(m, root, TOP) && i2 < ENTRIES && i1 < ENTRIES
  {
    var e2 := m[root][i2];
    if !IsBranch(e2) then HasFlag(LeafFlags(e2), DONT_COMPRESS)
    else
      var t1 := BranchLoc(e2);
      Tree(m, t1, TOP - 1) && !IsBranch(m[t1][i1]) && HasFlag(LeafFlags(m[t1][i1]), DONT_COMPRESS)
  }

  // ---- rows of entries ----

  predicate AllZero(row: seq<u64>) {
    forall k :: 0 <= k < |row| ==> row[k] == 0
  }

  /** The test of shrink_branch on a table whose first entry is in use. */
  predicate Uniform(row: seq<u64>, step: u64)
    requires |row| == ENTRIES
  {
    forall k :: 0 <= k < ENTRIES ==> MatchesFirst(row, step, k)
  }

  predicate MatchesFirst(row: seq<u64>, step: u64, k: nat)
    requires |row| == ENTRIES && k < ENTRIES
  {
    && PhysLeafLoc(row[k]) == Add64(PhysLeafLoc(row[0]), (step * k) % TWO_TO_64)
    && LeafFlags(row[k]) == LeafFlags(row[0])
    && !HasFlag(LeafFlags(row[k]), DONT_COMPRESS)
  }

  /** The row after the first `done` small pages were written from entry `at`. */
  function Written(row: seq<u64>, at: nat, done: nat, phys: u64, flags: Flags): (out: seq<u64>)
    requires |row| == ENTRIES && at + done <= ENTRIES
    ensures |out| == ENTRIES
  {
    seq(ENTRIES, k requires 0 <= k < ENTRIES => WrittenEntry(row, at, done, phys, flags, k))
  }

  function WrittenEntry(row: seq<u64>, at: nat, done: nat, phys: u64, flags: Flags, k: nat): u64
    requires |row| == ENTRIES && k < ENTRIES
  {
    if at <= k < at + done then CreateLeaf(Add64(phys, (k - at) * PAGE_SIZE), flags) else row[k]
  }

  lemma WrittenStep(row: seq<u64>, at: nat, done: nat, phys: u64, flags: Flags)
    requires |row| == ENTRIES && at + done < ENTRIES
    ensures Written(row, at, done, phys, flags)[at + done := CreateLeaf(Add64(phys, done * PAGE_SIZE), flags)]
         == Written(row, at, done + 1, phys, flags)
  {
  }

  /** One written entry is a well-formed leaf of the requested frame. */
  lemma NewEntry(phys: u64, size: u64, flags: Flags, k: nat)
    requires RequestFlagsOk(flags) && FramesOk(phys, size, flags) && (k + 1) * PAGE_SIZE <= size
    ensures CreateLeaf(Add64(phys, k * PAGE_SIZE), flags)
         == if flags == 0 then 0 else (FrameOf(phys) + k) * 1024 + flags
    ensures flags != 0 ==> FrameOf(phys) + k < 0x1000_0000_0000
  {
    if flags != 0 {
      var off := Sub64(phys, KERNEL_VMA_START);
      assert phys == (off + KERNEL_VMA_START) % TWO_TO_64;
      AddressOffset(off, k * PAGE_SIZE);
      assert (off + k * PAGE_SIZE) / PAGE_SIZE == off / PAGE_SIZE + k;
      assert flags % 2 == 1;
    }
  }

  /** A last-level entry translates to its own frame and flags. */
  lemma LastEntryWalk(m: Mem, e: u64, page: nat)
    requires EntryOk(e, 0)
    ensures EntryWalk(m, e, 0, page) == if e == 0 then Fault else Mapped(Ppn(e), LeafFlags(e))
  {
    if e != 0 {
      LeafIsLeaf(e);
    }
  }

  lemma WrittenOk(row: seq<u64>, at: nat, done: nat, phys: u64, size: u64, flags: Flags, k: nat)
    requires FlatRow(row, 0) && at + done <= ENTRIES && k < ENTRIES
    requires RequestFlagsOk(flags) && FramesOk(phys, size, flags) && done * PAGE_SIZE <= size
    ensures var e := Written(row, at, done, phys, flags)[k];
            && EntryOk(e, 0) && !IsBranch(e)
            && (at <= k < at + done ==>
                  if flags == 0 then e == 0
                  else e != 0 && Ppn(e) == FrameOf(phys) + (k - at) && LeafFlags(e) == flags)
  {
    if at <= k < at + done {
      assert (k - at + 1) * PAGE_SIZE <= done * PAGE_SIZE;
      NewEntry(phys, size, flags, k - at);
      if flags != 0 {
        LeafEntry(FrameOf(phys) + (k - at), 0, flags);
      }
    }
  }

  /** The row of an edited window, read as the architecture reads it, is the
      request laid over what the window translated to before. */
  lemma WrittenWalk(m: Mem, n: Mem, row: seq<u64>, at: nat, done: nat, phys: u64, size: u64, flags: Flags, k: nat, page: nat)
    requires FlatRow(row, 0) && at + done <= ENTRIES && k < ENTRIES
    requires RequestFlagsOk(flags) && FramesOk(phys, size, flags) && done * PAGE_SIZE <= size
    ensures EntryOk(Written(row, at, done, phys, flags)[k], 0)
    ensures EntryWalk(n, Written(row, at, done, phys, flags)[k], 0, page) ==
            if !(at <= k < at + done) then EntryWalk(m, row[k], 0, page)
            else if flags == 0 then Fault else Mapped(FrameOf(phys) + (k - at), flags)
  {
    var e := Written(row, at, done, phys, flags)[k];
    WrittenOk(row, at, done, phys, size, flags, k);
    LastEntryWalk(n, e, page);
    LastEntryWalk(m, row[k], page);
  }

  /** shrink_branch's test on a last-level row says that the row maps consecutive
      frames with one set of compressible flags. */
  lemma UniformMeans(row: seq<u64>)
    requires FlatRow(row, 0) && row[0] != 0
    ensures Uniform(row, PAGE_SIZE) <==>
            && !HasFlag(LeafFlags(row[0]), DONT_COMPRESS)
            && forall k :: 0 <= k < ENTRIES ==>
                 row[k] != 0 && Ppn(row[k]) == Ppn(row[0]) + k && LeafFlags(row[k]) == LeafFlags(row[0])
  {
    forall k | 0 <= k < ENTRIES
      ensures MatchesFirst(row, PAGE_SIZE, k) <==>
              && row[k] != 0 && Ppn(row[k]) == Ppn(row[0]) + k && LeafFlags(row[k]) == LeafFlags(row[0])
              && !HasFlag(LeafFlags(row[0]), DONT_COMPRESS)
    {
      assert LeafFlags(row[0]) > VALID;
      if row[k] != 0 {
        ConsecutiveAliases(Ppn(row[0]), Ppn(row[k]), k);
      }
    }
    assert Uniform(row, PAGE_SIZE) ==> MatchesFirst(row, PAGE_SIZE, 0);
  }

  lemma ConsecutiveAliases(p: nat, q: nat, k: nat)
    requires p < 0x1000_0000_0000 && q < 0x1000_0000_0000 && k < ENTRIES
    ensures Alias(q) == Add64(Alias(p), (PAGE_SIZE * k) % TWO_TO_64) <==> q == p + k
  {
    assert Add64(Alias(p), (PAGE_SIZE * k) % TWO_TO_64) == ((p + k) * PAGE_SIZE + KERNEL_VMA_START) % TWO_TO_64;
    SameResidue(q * PAGE_SIZE, (p + k) * PAGE_SIZE);
  }

  lemma SameResidue(a: nat, b: nat)
    requires a < 0x200_0000_0000_0000 && b < 0x200_0000_0000_0000
    ensures (a + KERNEL_VMA_START) % TWO_TO_64 == (b + KERNEL_VMA_START) % TWO_TO_64 <==> a == b
  {
  }

  // ---- shrink_branch ----

  /** What shrink_branch makes of entry `i` of `table`: the new memory and the
      pages it frees. A mapped uniform table is freed but stays linked. */
  ghost function Shrunk(m: Mem, table: u64, i: nat, jump: u64): (Mem, set<u64>)
    requires table in m && |m[table]| == ENTRIES && i < ENTRIES
  {
    var b := BranchLoc(m[table][i]);
    if !IsBranch(m[table][i]) || b !in m || |m[b]| != ENTRIES then (m, {})
    else if m[b][0] == 0 then
      if AllZero(m[b]) then (m[table := m[table][i := 0]], {b}) else (m, {})
    else if Uniform(m[b], jump / ENTRIES) then (m, {b}) else (m, {})
  }

  /** A window being edited: the path of tables from the root to its pages. */
  ghost predicate Window(m: Mem, root: u64, i2: nat, i1: nat, t1: u64, t0: u64) {
    && HasChild(m, root, TOP, i2, t1) && i1 < ENTRIES
    && IsBranch(m[t1][i1]) && BranchLoc(m[t1][i1]) == t0
    && t0 in m && FlatRow(m[t0], 0)
  }

  /** A table of the last level holds no branches. */
  lemma LastLevelFlat(m: Mem, t0: u64, level: Level)
    requires Tree(m, t0, level) && level == 0
    ensures FlatRow(m[t0], 0)
  {
    forall k | 0 <= k < ENTRIES
      ensures EntryOk(m[t0][k], 0) && !IsBranch(m[t0][k])
    {
      assert EntryTree(m, m[t0][k], level);
    }
  }

  /** The path reached by following two branches. */
  lemma WindowOfPath(m: Mem, root: u64, i2: nat, i1: nat, t1: u64, t0: u64)
    requires HasChild(m, root, TOP, i2, t1) && i1 < ENTRIES
    requires IsBranch(m[t1][i1]) && BranchLoc(m[t1][i1]) == t0
    ensures Window(m, root, i2, i1, t1, t0)
    ensures t1 in Pages(m, root, TOP) && t0 in Pages(m, root, TOP) && root != t1 && t0 != t1 && t0 != root
  {
    ChildFacts(m, root, TOP, i2);
    ChildFacts(m, t1, TOP - 1, i1);
    LastLevelFlat(m, t0, TOP - 2);
  }

  /** What shrinking the edited window does to memory. */
  lemma ShrinkWindowEffect(m: Mem, root: u64, i2: nat, i1: nat, t1: u64, t0: u64)
    requires Window(m, root, i2, i1, t1, t0)
    ensures Shrunk(m, t1, i1, EntryBytes(1)) ==
            if AllZero(m[t0]) then (m[t1 := m[t1][i1 := 0]], {t0})
            else if m[t0][0] != 0 && Uniform(m[t0], PAGE_SIZE) then (m, {t0})
            else (m, {})
  {
    assert EntryBytes(1) / ENTRIES == PAGE_SIZE;
  }

  /** Shrinking the edited window: an empty window loses its table, a uniform one
      only frees it, and no translation changes. */
  lemma ShrinkWindow(m: Mem, n: Mem, root: u64, i2: nat, i1: nat, t1: u64, t0: u64)
    requires Window(m, root, i2, i1, t1, t0)
    requires n == Shrunk(m, t1, i1, EntryBytes(1)).0
    ensures HasChild(n, root, TOP, i2, t1)
    ensures SameWalk(m, n, root, TOP)
    ensures Pages(n, root, TOP) == if AllZero(m[t0]) then Pages(m, root, TOP) - {t0} else Pages(m, root, TOP)
    ensures n[t1][i1] == 0 || IsBranch(n[t1][i1])
  {
    ShrinkWindowEffect(m, root, i2, i1, t1, t0);
    if AllZero(m[t0]) {
      WindowOfPath(m, root, i2, i1, t1, t0);
      CollapseUnder(m, n, root, TOP, i2, t1, i1);
    }
  }

  /** A second-level table with an empty or branching entry is never uniform. */
  lemma NotUniform(row: seq<u64>, i: nat)
    requires |row| == ENTRIES && i < ENTRIES && row[0] != 0
    requires row[i] == 0 || IsBranch(row[i])
    requires forall k :: 0 <= k < ENTRIES ==> EntryOk(row[k], 1)
    ensures !Uniform(row, EntryBytes(1))
  {
    if row[i] == 0 || !IsBranch(row[0]) {
      assert !MatchesFirst(row, EntryBytes(1), i);
    } else {
      assert !MatchesFirst(row, EntryBytes(1), 1);
    }
  }

  lemma SecondLevelOk(m: Mem, t1: u64, level: Level)
    requires Tree(m, t1, level)
    ensures forall k :: 0 <= k < ENTRIES ==> EntryOk(m[t1][k], level)
  {
    forall k | 0 <= k < ENTRIES
      ensures EntryOk(m[t1][k], level)
    {
      assert EntryTree(m, m[t1][k], level);
    }
  }

  lemma ShrinkRootEffect(m: Mem, root: u64, i2: nat, i1: nat, t1: u64)
    requires HasChild(m, root, TOP, i2, t1) && i1 < ENTRIES
    requires m[t1][i1] == 0 || IsBranch(m[t1][i1])
    ensures Shrunk(m, root, i2, EntryBytes(2)) ==
            if AllZero(m[t1]) then (m[root := m[root][i2 := 0]], {t1}) else (m, {})
  {
    assert EntryBytes(2) / ENTRIES == EntryBytes(1);
    if m[t1][0] != 0 {
      SecondLevelOk(m, t1, TOP - 1);
      NotUniform(m[t1], i1);
    }
  }

  /** Shrinking the 1 GiB entry above: only an empty table is removed, and doing
      it again does nothing. */
  lemma ShrinkRoot(m: Mem, n: Mem, root: u64, i2: nat, i1: nat, t1: u64)
    requires HasChild(m, root, TOP, i2, t1) && i1 < ENTRIES
    requires m[t1][i1] == 0 || IsBranch(m[t1][i1])
    requires n == Shrunk(m, root, i2, EntryBytes(2)).0
    ensures Tree(n, root, TOP)
    ensures SameWalk(m, n, root, TOP)
    ensures Pages(n, root, TOP) == if AllZero(m[t1]) then Pages(m, root, TOP) - {t1} else Pages(m, root, TOP)
    ensures Shrunk(n, root, i2, EntryBytes(2)) == (n, {})
  {
    ShrinkRootEffect(m, root, i2, i1, t1);
    if AllZero(m[t1]) {
      CollapseAt(m, n, root, TOP, i2);
    }
  }

  // ---- the pages of the rest of the system ----

  /** Pages in use outside a tree keep their contents. */
  ghost predicate OthersKept(m: Mem, n: Mem, used: set<u64>, pages: set<u64>) {
    forall p :: p in used && p !in pages && p in m ==> p in n && n[p] == m[p]
  }

  /** A tree that takes a new page leaves the rest of the pages in use as they
      were. */
  lemma RestKept(used: set<u64>, pages: set<u64>, b: u64)
    requires b !in used
    ensures (used + {b}) - (pages + {b}) == used - pages
  {
  }

  lemma OthersKeptStep(m: Mem, n: Mem, used: set<u64>, pages: set<u64>, b: u64, t: u64, row: seq<u64>, row': seq<u64>)
    requires b !in used && t in pages
    requires n == m[b := row][t := row']
    ensures OthersKept(m, n, used, pages)
  {
  }

  lemma OthersKeptTrans(m: Mem, n: Mem, o: Mem, used: set<u64>, pages: set<u64>, used': set<u64>, pages': set<u64>)
    requires OthersKept(m, n, used, pages) && OthersKept(n, o, used', pages')
    requires used' - pages' == used - pages
    ensures OthersKept(m, o, used, pages)
  {
    forall p | p in used && p !in pages && p in m
      ensures p in o && o[p] == m[p]
    {
      assert p in used' - pages';
    }
  }

  /** Opening the first level of the path. */
  lemma OpenRoot(m: Mem, n: Mem, root: u64, i2: nat, b: u64)
    requires Tree(m, root, TOP) && i2 < ENTRIES && !IsBranch(m[root][i2])
    requires IsKernelPage(b) && b !in Pages(m, root, TOP)
    requires n == m[b := Expanded(m[root][i2], EntryBytes(2))][root := m[root][i2 := CreateBranch(b)]]
    ensures HasChild(n, root, TOP, i2, b)
    ensures SameWalk(m, n, root, TOP)
    ensures Pages(n, root, TOP) == Pages(m, root, TOP) + {b}
    ensures n[b] == Expanded(m[root][i2], EntryBytes(2))
  {
    ExpandAt(m, n, root, TOP, i2, b);
    ChildFacts(n, root, TOP, i2);
    assert root in Pages(m, root, TOP);
  }

  /** The pieces of a split leaf carry its flags. */
  lemma PieceFlags(e: u64, level: Level, k: nat)
    requires level > 0 && EntryOk(e, level) && !IsBranch(e) && k < ENTRIES
    ensures !IsBranch(Expanded(e, EntryBytes(level))[k])
    ensures LeafFlags(Expanded(e, EntryBytes(level))[k]) == LeafFlags(e)
  {
    ExpandedEntry(e, level, k);
    if e != 0 {
      PieceInRange(Ppn(e), level, k);
      LeafEntry(Ppn(e), k * Span(level - 1), LeafFlags(e));
    }
  }

  /** Opening the second level. */
  lemma OpenSecond(m: Mem, n: Mem, root: u64, i2: nat, i1: nat, t1: u64, b: u64)
    requires HasChild(m, root, TOP, i2, t1) && i1 < ENTRIES && !IsBranch(m[t1][i1])
    requires IsKernelPage(b) && b !in Pages(m, root, TOP)
    requires n == m[b := Expanded(m[t1][i1], EntryBytes(1))][t1 := m[t1][i1 := CreateBranch(b)]]
    ensures Window(n, root, i2, i1, t1, b)
    ensures SameWalk(m, n, root, TOP)
    ensures Pages(n, root, TOP) == Pages(m, root, TOP) + {b}
  {
    ExpandUnder(m, n, root, TOP, i2, t1, i1, b);
    ChildFacts(m, root, TOP, i2);
    assert n[root] == m[root];
    WindowOfPath(n, root, i2, i1, t1, b);
  }

  /** An entry of a tree that is a branch has a table address. */
  lemma BranchNotNull(m: Mem, table: u64, level: Level, i: nat)
    requires Tree(m, table, level) && i < ENTRIES && IsBranch(m[table][i])
    ensures BranchLoc(m[table][i]) != 0 && level > 0
    ensures HasChild(m, table, level, i, BranchLoc(m[table][i]))
  {
    assert EntryTree(m, m[table][i], level);
    ChildFacts(m, table, level, i);
  }

  /** The pages in use after a table was unlinked and freed, or only freed. */
  lemma FreedTable(used: set<u64>, pages: set<u64>, t: u64, unlinked: bool, freed: bool, used': set<u64>, pages': set<u64>)
    requires pages <= used && t in pages && (unlinked ==> freed)
    requires pages' == if unlinked then pages - {t} else pages
    requires used' == used - if freed then {t} else {}
    ensures used' - pages' == used - pages
    ensures pages' <= used' <==> (freed ==> unlinked)
  {
  }

  lemma UnlinkedTable(used: set<u64>, pages: set<u64>, t: u64, unlinked: bool, used': set<u64>, pages': set<u64>)
    requires t in used && t in pages
    requires pages' == if unlinked then pages - {t} else pages
    requires used' == used - if unlinked then {t} else {}
    ensures used' - pages' == used - pages
    ensures pages' <= used' <==> pages <= used
  {
  }

  lemma OthersKeptEdit(m: Mem, n: Mem, used: set<u64>, pages: set<u64>, t: u64, row: seq<u64>)
    requires t in pages && (n == m || n == m[t := row])
    ensures OthersKept(m, n, used, pages)
  {
  }

  // ---- slots and windows ----

  /** A page has the slots of `first` exactly when it lies in the same window. */
  lemma SameWindow(first: nat, page: nat)
    requires first < PAGES && page < PAGES
    ensures Slot(page, 2) == Slot(first, 2) && Slot(page, 1) == Slot(first, 1) <==> page / 512 == first / 512
    ensures Slot(page, 0) == page % 512
  {
    WindowSlots(first);
    WindowSlots(page);
  }

  lemma WindowSlots(page: nat)
    requires page < PAGES
    ensures Slot(page, 2) == page / 512 / 512 && Slot(page, 1) == page / 512 % 512
  {
    assert page / 262144 == page / 512 / 512;
  }

  /** The walk of a page in the window ends in the window's own table. */
  lemma WindowWalk(m: Mem, root: u64, i2: nat, i1: nat, t1: u64, t0: u64, page: nat)
    requires Window(m, root, i2, i1, t1, t0)
    requires Slot(page, 2) == i2 && Slot(page, 1) == i1
    ensures Walk(m, root, TOP, page) == EntryWalk(m, m[t0][Slot(page, 0)], 0, page)
  {
    ChildFacts(m, root, TOP, i2);
    ChildFacts(m, t1, TOP - 1, i1);
  }

  lemma WrittenFlat(row: seq<u64>, at: nat, done: nat, phys: u64, size: u64, flags: Flags)
    requires FlatRow(row, 0) && at + done <= ENTRIES
    requires RequestFlagsOk(flags) && FramesOk(phys, size, flags) && done * PAGE_SIZE <= size
    ensures FlatRow(Written(row, at, done, phys, flags), 0)
  {
    forall k | 0 <= k < ENTRIES
      ensures EntryOk(Written(row, at, done, phys, flags)[k], 0) && !IsBranch(Written(row, at, done, phys, flags)[k])
    {
      WrittenOk(row, at, done, phys, size, flags, k);
    }
  }

  /** Rewriting the window's table changes the walk of the window's pages only. */
  lemma RewriteWindow(m: Mem, n: Mem, root: u64, i2: nat, i1: nat, t1: u64, t0: u64, row: seq<u64>)
    requires Window(m, root, i2, i1, t1, t0) && FlatRow(row, 0)
    requires n == m[t0 := row]
    ensures Window(n, root, i2, i1, t1, t0)
    ensures Pages(n, root, TOP) == Pages(m, root, TOP)
    ensures forall page: nat :: !(Slot(page, 2) == i2 && Slot(page, 1) == i1) ==>
              Walk(n, root, TOP, page) == Walk(m, root, TOP, page)
  {
    WindowOfPath(m, root, i2, i1, t1, t0);
    WriteUnder(m, n, root, TOP, i2, t1, i1, row);
  }

  /** A request of `count` pages from `first`, inside one window. */
  ghost predicate Request(first: nat, count: nat, phys: u64, size: u64, flags: Flags) {
    && first < PAGES && first % 512 + count <= 512 && size == count * PAGE_SIZE
    && RequestFlagsOk(flags) && FramesOk(phys, size, flags)
  }

  lemma WritePage(m: Mem, n: Mem, root: u64, first: nat, count: nat, t1: u64, t0: u64, phys: u64, size: u64, flags: Flags, page: nat)
    requires Request(first, count, phys, size, flags) && page < PAGES && page / 512 == first / 512
    requires Window(m, root, Slot(first, 2), Slot(first, 1), t1, t0)
    requires Window(n, root, Slot(first, 2), Slot(first, 1), t1, t0)
    requires n[t0] == Written(m[t0], first % 512, count, phys, flags)
    ensures Walk(n, root, TOP, page) == Override(m, root, first, count, FrameOf(phys), flags, page)
  {
    SameWindow(first, page);
    WindowWalk(m, root, Slot(first, 2), Slot(first, 1), t1, t0, page);
    WindowWalk(n, root, Slot(first, 2), Slot(first, 1), t1, t0, page);
    assert page - first == page % 512 - first % 512;
    WrittenWalk(m, n, m[t0], first % 512, count, phys, size, flags, page % 512, page);
  }

  /** Writing the request into the window gives the requested translation. */
  lemma WriteWindow(m: Mem, n: Mem, root: u64, first: nat, count: nat, t1: u64, t0: u64, phys: u64, size: u64, flags: Flags)
    requires Request(first, count, phys, size, flags)
    requires Window(m, root, Slot(first, 2), Slot(first, 1), t1, t0)
    requires n == m[t0 := Written(m[t0], first % 512, count, phys, flags)]
    ensures Window(n, root, Slot(first, 2), Slot(first, 1), t1, t0)
    ensures Pages(n, root, TOP) == Pages(m, root, TOP)
    ensures Edited(m, n, root, first, count, FrameOf(phys), flags)
  {
    WrittenFlat(m[t0], first % 512, count, phys, size, flags);
    RewriteWindow(m, n, root, Slot(first, 2), Slot(first, 1), t1, t0, n[t0]);
    forall page: nat | page < PAGES
      ensures Walk(n, root, TOP, page) == Override(m, root, first, count, FrameOf(phys), flags, page)
    {
      if page / 512 == first / 512 {
        WritePage(m, n, root, first, count, t1, t0, phys, size, flags, page);
      } else {
        SameWindow(first, page);
      }
    }
  }

  /** What an entry of the last level says. */
  ghost function EntryMeaning(e: u64): Translation {
    if e == 0 then Fault else Mapped(Ppn(e), LeafFlags(e))
  }

  lemma WindowMeaning(n: Mem, root: u64, first: nat, t1: u64, t0: u64, page: nat)
    requires first < PAGES && first / 512 * 512 <= page < first / 512 * 512 + 512
    requires Window(n, root, Slot(first, 2), Slot(first, 1), t1, t0)
    ensures Walk(n, root, TOP, page) == EntryMeaning(n[t0][page - first / 512 * 512])
  {
    InWindowPage(first, page);
    SameWindow(first, page);
    WindowWalk(n, root, Slot(first, 2), Slot(first, 1), t1, t0, page);
    LastEntryWalk(n, n[t0][page - first / 512 * 512], page);
  }

  /** The window left behind is uniform in the sense of shrink_branch exactly when
      the request leaves it mapped to consecutive frames. */
  lemma WindowUniform(m: Mem, n: Mem, root: u64, first: nat, count: nat, frame: nat, flags: Flags, t1: u64, t0: u64)
    requires first < PAGES
    requires Window(n, root, Slot(first, 2), Slot(first, 1), t1, t0)
    requires Edited(m, n, root, first, count, frame, flags)
    ensures LeavesUniform(m, root, first, count, frame, flags)
       <==> n[t0][0] != 0 && Uniform(n[t0], PAGE_SIZE)
  {
    var window := first / 512 * 512;
    forall page: nat | window <= page < window + 512
      ensures Override(m, root, first, count, frame, flags, page) == EntryMeaning(n[t0][page - window])
    {
      InWindowPage(first, page);
      WindowMeaning(n, root, first, t1, t0, page);
    }
    if n[t0][0] != 0 {
      UniformMeans(n[t0]);
      if LeavesUniform(m, root, first, count, frame, flags) {
        forall k | 0 <= k < ENTRIES
          ensures n[t0][k] != 0 && Ppn(n[t0][k]) == Ppn(n[t0][0]) + k && LeafFlags(n[t0][k]) == LeafFlags(n[t0][0])
        {
          assert Override(m, root, first, count, frame, flags, window + k) == EntryMeaning(n[t0][k]);
        }
      }
    }
  }

  lemma InWindowPage(first: nat, page: nat)
    requires first < PAGES && first / 512 * 512 <= page < first / 512 * 512 + 512
    ensures page < PAGES && page / 512 == first / 512 && page % 512 == page - first / 512 * 512
  {
    assert first / 512 < 262144;
  }

  /** In bounds, a request covers pages of the 39-bit space. */
  lemma RequestBounds(va: u64, size: u64)
    requires !OutOfBounds(va, size)
    ensures Normal(va) + size <= SPACE_TOP
  {
  }

  lemma FirstPage(va: u64, size: u64)
    requires !OutOfBounds(va, size) && InWindow(va, size)
    ensures Normal(va) / PAGE_SIZE < PAGES && size == size / PAGE_SIZE * PAGE_SIZE
  {
    RequestBounds(va, size);
  }

  lemma OverrideSame(m: Mem, n: Mem, root: u64, first: nat, count: nat, frame: nat, flags: Flags, page: nat)
    requires SameWalk(m, n, root, TOP)
    ensures Override(n, root, first, count, frame, flags, page) == Override(m, root, first, count, frame, flags, page)
  {
  }

  lemma LeavesUniformSame(m: Mem, n: Mem, root: u64, first: nat, count: nat, frame: nat, flags: Flags)
    requires SameWalk(m, n, root, TOP)
    ensures LeavesUniform(n, root, first, count, frame, flags) <==> LeavesUniform(m, root, first, count, frame, flags)
  {
    forall page: nat
      ensures Override(n, root, first, count, frame, flags, page) == Override(m, root, first, count, frame, flags, page)
    {
      OverrideSame(m, n, root, first, count, frame, flags, page);
    }
  }

  /** Opening and closing the window add nothing to the edit. */
  lemma EditedBetween(m0: Mem, m1: Mem, m2: Mem, m3: Mem, root: u64, first: nat, count: nat, frame: nat, flags: Flags)
    requires SameWalk(m0, m1, root, TOP) && Edited(m1, m2, root, first, count, frame, flags)
    requires SameWalk(m2, m3, root, TOP)
    ensures Edited(m0, m3, root, first, count, frame, flags)
    ensures LeavesUniform(m1, root, first, count, frame, flags) <==> LeavesUniform(m0, root, first, count, frame, flags)
  {
    forall page: nat | page < PAGES
      ensures Walk(m3, root, TOP, page) == Override(m0, root, first, count, frame, flags, page)
    {
      OverrideSame(m0, m1, root, first, count, frame, flags, page);
    }
    LeavesUniformSame(m0, m1, root, first, count, frame, flags);
  }

  /** Editing one address space leaves every other one as it was: a tree of pages
      in use that shares none with the edited tree keeps its pages and its
      translation, and still shares none. */
  lemma OtherSpaceKept(m: Mem, n: Mem, used: set<u64>, used': set<u64>, root: u64, other: u64)
    requires OthersKept(m, n, used, Pages(m, root, TOP))
    requires used' - Pages(n, root, TOP) == used - Pages(m, root, TOP)
    requires Tree(m, other, TOP) && Pages(m, other, TOP) <= used - Pages(m, root, TOP)
    ensures Tree(n, other, TOP) && SameWalk(m, n, other, TOP)
    ensures Pages(n, other, TOP) == Pages(m, other, TOP) <= used' - Pages(n, root, TOP)
  {
    TreePagesInMem(m, other, TOP);
    Frame(m, n, other, TOP);
  }

  // ---- superpages that must not be split ----

  lemma PinnedLeaf(m: Mem, e: u64, level: Level, page: nat)
    requires EntryTree(m, e, level) && !IsBranch(e) && HasFlag(LeafFlags(e), DONT_COMPRESS)
    ensures EntryWalk(m, e, level, page).Mapped? && HasFlag(EntryWalk(m, e, level, page).flags, DONT_COMPRESS)
  {
    LeafIsLeaf(e);
  }

  /** Pages under a superpage that must not be split are mapped with that flag. */
  lemma PinnedWalk(m: Mem, root: u64, page: nat)
    requires Tree(m, root, TOP) && page < PAGES && PinnedSuperpage(m, root, Slot(page, 2), Slot(page, 1))
    ensures Walk(m, root, TOP, page).Mapped? && HasFlag(Walk(m, root, TOP, page).flags, DONT_COMPRESS)
  {
    var e2 := m[root][Slot(page, 2)];
    assert EntryTree(m, e2, TOP);
    if IsBranch(e2) {
      var t1 := BranchLoc(e2);
      BranchWalk(m, e2, TOP, page);
      var e1 := m[t1][Slot(page, 1)];
      assert EntryTree(m, e1, TOP - 1);
      PinnedLeaf(m, e1, TOP - 1, page);
    } else {
      PinnedLeaf(m, e2, TOP, page);
    }
  }

  /** A page is mapped so that it must not be split off. */
  ghost predicate PinnedPage(m: Mem, root: u64, page: nat) {
    var w := Walk(m, root, TOP, page);
    w.Mapped? && HasFlag(w.flags, DONT_COMPRESS)
  }
}
