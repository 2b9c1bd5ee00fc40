/**
 The request that breaks a table: filling a 2 MiB window with consecutive frames
 makes shrink_branch free a table that stays linked.
 */
module UniformWindow {
  import opened Machine
  import opened Sv39
  import opened TableEdits
  import opened VirtualMemory
  import opened PageEditor
  import opened ProcessSpace

  /** The last page of a window whose other pages have consecutive frames and the
      same compressible flags leaves the window uniform. */
  lemma LastPageCompletes(m: Mem, root: u64, window: nat, frame: nat, flags: Flags)
    requires window % 512 == 0 && flags != 0 && !HasFlag(flags, DONT_COMPRESS)
    requires forall page: nat :: window <= page < window + 511 ==> Walk(m, root, TOP, page) == Mapped(frame + (page - window), flags)
    ensures LeavesUniform(m, root, window + 511, 1, frame + 511, flags)
  {
    var first := window + 511;
    assert first / 512 * 512 == window;
    assert Override(m, root, first, 1, frame + 511, flags, window) == Mapped(frame, flags);
  }

  const FLAGS: Flags := VALID + READ + USER + ACCESSED + DIRTY

  /** A 2 MiB window of the user half that does not start on a 1 GiB boundary. */
  predicate UserWindow(window: nat) {
    window % 512 == 0 && window % 262144 != 0 && window + 512 <= KERNEL_PAGE
  }

  /** `count` pages from `first`, inside such a window. */
  predicate InUserWindow(window: nat, first: nat, count: nat) {
    UserWindow(window) && window <= first && 0 < count < 512 && first + count <= window + 512
  }

  lemma PagesRequest(window: nat, first: nat, count: nat)
    requires InUserWindow(window, first, count)
    ensures first % 262144 != 0 && first % 512 + count <= 512 && first + count <= KERNEL_PAGE
  {
    assert window / 262144 == (window + 511) / 262144;
  }

  lemma RequestBytes(first: nat, count: nat)
    requires first % 262144 != 0 && first % 512 + count <= 512 && first + count <= KERNEL_PAGE && 0 < count < 512
    ensures first * PAGE_SIZE < TWO_TO_64 && count * PAGE_SIZE < TWO_TO_64
    ensures InWindow(first * PAGE_SIZE, count * PAGE_SIZE) && !OutOfBounds(first * PAGE_SIZE, count * PAGE_SIZE)
    ensures Normal(first * PAGE_SIZE) / PAGE_SIZE == first && count * PAGE_SIZE / PAGE_SIZE == count
  {
  }

  lemma FlagFacts()
    ensures LeafFlagsOk(FLAGS) && !HasFlag(FLAGS, DONT_COMPRESS) && UserFlags(READ) == FLAGS
  {
  }

  /** Kernel addresses whose frames are far from the end of the physical space. */
  predicate LowFrames(phys: u64) {
    IsKernelPage(phys) && phys < 0xffff_ffff_0000_0000
  }

  lemma NextFrame(phys: u64)
    requires LowFrames(phys)
    ensures phys + 511 * PAGE_SIZE < TWO_TO_64 && IsKernelPage(phys + 511 * PAGE_SIZE)
    ensures FrameOf(phys + 511 * PAGE_SIZE) == FrameOf(phys) + 511
  {
  }

  lemma FramesFit(phys: u64, count: nat)
    requires IsKernelPage(phys) && count < 512
    ensures FramesOk(phys, count * PAGE_SIZE, FLAGS)
  {
  }

  ghost predicate MostFilled(m: Mem, root: u64, window: nat, frame: nat) {
    forall page: nat :: window <= page < window + 511 ==>
      Walk(m, root, TOP, page) == Mapped(frame + (page - window), FLAGS)
  }

  ghost predicate Filled(m: Mem, root: u64, window: nat, frame: nat) {
    forall page: nat :: window <= page < window + 512 ==>
      Walk(m, root, TOP, page) == Mapped(frame + (page - window), FLAGS)
  }

  lemma MostEdited(m: Mem, n: Mem, root: u64, window: nat, frame: nat)
    requires Edited(m, n, root, window, 511, frame, FLAGS) && window + 512 <= PAGES
    ensures MostFilled(n, root, window, frame)
    ensures Walk(n, root, TOP, window + 511) == Walk(m, root, TOP, window + 511)
  {
  }

  lemma LastEdited(m: Mem, n: Mem, root: u64, window: nat, frame: nat)
    requires MostFilled(m, root, window, frame) && window + 512 <= PAGES
    requires Edited(m, n, root, window + 511, 1, frame + 511, FLAGS)
    ensures Filled(n, root, window, frame)
  {
  }

  lemma NotPinned(m: Mem, root: u64, page: nat)
    requires Tree(m, root, TOP) && page < PAGES && Walk(m, root, TOP, page) == Fault
    ensures !PinnedSuperpage(m, root, Slot(page, 2), Slot(page, 1))
  {
    PinnedHere(m, root, page);
  }

  /** vma_map_user for readable pages that are not pinned, by page numbers. */
  method MapPages(t: TableMemory, root: u64, ghost window: nat, first: nat, count: nat, phys: u64, ghost frame: nat)
    requires t.Valid() && t.Owns(root) && |t.managed - t.inUse| >= 2 && InUserWindow(window, first, count)
    requires IsKernelPage(phys) && frame == FrameOf(phys) && Walk(t.mem, root, TOP, first) == Fault
    modifies t
    ensures t.Valid() && Tree(t.mem, root, TOP)
    ensures Edited(old(t.mem), t.mem, root, first, count, frame, FLAGS)
    ensures t.Owns(root) <==> !LeavesUniform(old(t.mem), root, first, count, frame, FLAGS)
    ensures |t.managed - t.inUse| >= |t.managed - old(t.inUse)| - 2
  {
    PagesRequest(window, first, count);
    RequestBytes(first, count);
    FlagFacts();
    FramesFit(phys, count);
    NotPinned(t.mem, root, first);
    var r := t.ReplaceSection(root, first * PAGE_SIZE, count * PAGE_SIZE, phys, UserFlags(READ));
    StillFree(t.managed, old(t.inUse), t.inUse, 2);
  }

  /** The first request: 511 of the window's pages. */
  method FillMost(t: TableMemory, root: u64, window: nat, phys: u64)
    requires t.Valid() && t.Owns(root) && |t.managed - t.inUse| >= 4 && UserWindow(window) && IsKernelPage(phys)
    requires Walk(t.mem, root, TOP, window) == Fault && Walk(t.mem, root, TOP, window + 511) == Fault
    modifies t
    ensures t.Valid() && t.Owns(root) && |t.managed - t.inUse| >= 2
    ensures MostFilled(t.mem, root, window, FrameOf(phys)) && Walk(t.mem, root, TOP, window + 511) == Fault
  {
    MapPages(t, root, window, window, 511, phys, FrameOf(phys));
    HoleLeft(old(t.mem), root, window, 511, FrameOf(phys), FLAGS, window + 511);
    MostEdited(old(t.mem), t.mem, root, window, FrameOf(phys));
  }

  /** The second request: the last page, with the next frame. */
  method FillLast(t: TableMemory, root: u64, window: nat, phys: u64, ghost frame: nat)
    requires t.Valid() && t.Owns(root) && |t.managed - t.inUse| >= 2 && UserWindow(window)
    requires IsKernelPage(phys) && FrameOf(phys) == frame + 511
    requires Walk(t.mem, root, TOP, window + 511) == Fault && MostFilled(t.mem, root, window, frame)
    modifies t
    ensures t.Valid() && Tree(t.mem, root, TOP) && !t.Owns(root)
    ensures Filled(t.mem, root, window, frame)
  {
    FlagFacts();
    LastPageCompletes(t.mem, root, window, frame, FLAGS);
    MapPages(t, root, window, window + 511, 1, phys, frame + 511);
    LastEdited(old(t.mem), t.mem, root, window, frame);
  }

  /** Two vma_map_user requests on a new table, in any 2 MiB window of the user half:
      the window is mapped as asked for, and its table is no longer in use although
      the tree of tables still contains it. */
  method FreedButLinked(t: TableMemory, window: nat, phys: u64) returns (root: u64, ghost table: u64)
    requires t.Valid() && |t.managed - t.inUse| >= 5 && UserWindow(window)
    requires LowFrames(phys)
    modifies t
    ensures t.Valid() && Tree(t.mem, root, TOP) && Filled(t.mem, root, window, FrameOf(phys))
    ensures table in Pages(t.mem, root, TOP) && table !in t.inUse
  {
    root := NewTable(t, window);
    FillMost(t, root, window, phys);
    NextFrame(phys);
    FillLast(t, root, window, phys + 511 * PAGE_SIZE, FrameOf(phys));
    table := Unowned(Pages(t.mem, root, TOP), t.inUse);
  }

  method NewTable(t: TableMemory, ghost window: nat) returns (root: u64)
    requires t.Valid() && |t.managed - t.inUse| >= 5 && UserWindow(window)
    modifies t
    ensures t.Valid() && t.Owns(root) && |t.managed - t.inUse| >= 4
    ensures Walk(t.mem, root, TOP, window) == Fault && Walk(t.mem, root, TOP, window + 511) == Fault
  {
    var created := CreateTable(t);
    root := created.value;
  }

  lemma Unowned(pages: set<u64>, used: set<u64>) returns (page: u64)
    requires !(pages <= used)
    ensures page in pages && page !in used
  {
    page :| page in pages && page !in used;
  }
}
