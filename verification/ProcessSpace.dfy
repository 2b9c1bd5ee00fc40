/**
 The address space of a process: vma_create, the mapping calls of
 new_blank_process, and the hart stacks that process_update_context_switch maps.
 */
module ProcessSpace {
  import opened Machine
  import opened Sv39
  import opened TableEdits
  import opened VirtualMemory
  import opened PageEditor

  const TRAPFRAME_ADDRESS: u64 := 0xFFFF_FFFF_FFFF_E000
  const PROC_KERN_STACK_START: u64 := 0xFFFF_FFFF_FFFF_A000
  const HART_KERN_STACK_START: u64 := 0xFFFF_FFFF_FFFF_4000
  const KERN_MAPPING_BOTTOM: u64 := 0xFFFF_FFFF_FFFF_3000

  const STACK_PAGES := 4

  /** Virtual pages of the same places. */
  const TRAPFRAME_PAGE := 0x7FF_FFFE
  const STACK_PAGE := 0x7FF_FFFA
  const HART_PAGE := 0x7FF_FFF4
  const BOTTOM_PAGE := 0x7FF_FFF3
  const KERNEL_PAGE := 0x400_0000

  const LINEAR_FLAGS: Flags := VALID + READ + WRITE + EXEC
  const KERNEL_FLAGS: Flags := VALID + READ + WRITE + ACCESSED + DIRTY

  /** The user half of an address space: what its mapped pages translate to. */
  type UserHalf = map<nat, Translation>

  /** The translation a process is meant to have, with its user half and the pages
      mapped so far at each place: frames for trap frame, process stack and hart
      stack. */
  ghost function Layout(user: UserHalf, trap: seq<u64>, stack: seq<u64>, hart: seq<u64>, page: nat): Translation {
    if page < KERNEL_PAGE then (if page in user then user[page] else Fault)
    else if page < BOTTOM_PAGE then Mapped(page - KERNEL_PAGE, LINEAR_FLAGS)
    else if TRAPFRAME_PAGE <= page < TRAPFRAME_PAGE + |trap| then
      Mapped(FrameOf(trap[page - TRAPFRAME_PAGE]), KERNEL_FLAGS)
    else if STACK_PAGE <= page < STACK_PAGE + |stack| then Mapped(FrameOf(stack[page - STACK_PAGE]), KERNEL_FLAGS)
    else if HART_PAGE <= page < HART_PAGE + |hart| then Mapped(FrameOf(hart[page - HART_PAGE]), KERNEL_FLAGS)
    else Fault
  }

  /** The layout before anything is cut out of the kernel half. */
  ghost function LinearLayout(page: nat): Translation {
    if page < KERNEL_PAGE then Fault else Mapped(page - KERNEL_PAGE, LINEAR_FLAGS)
  }

  ghost predicate HasLayout(m: Mem, root: u64, user: UserHalf, trap: seq<u64>, stack: seq<u64>, hart: seq<u64>) {
    && |trap| <= 1 && |stack| <= STACK_PAGES && |hart| <= STACK_PAGES
    && forall page: nat :: page < PAGES ==> Walk(m, root, TOP, page) == Layout(user, trap, stack, hart, page)
  }

  // ---- vma_create ----

  /** The root that vma_create fills: the kernel half maps physical memory in
      1 GiB leaves, the user half nothing. */
  function LinearRow(filled: nat): (row: seq<u64>)
    requires filled <= 256
    ensures |row| == ENTRIES
  {
    seq(ENTRIES, k requires 0 <= k < ENTRIES =>
      if 256 <= k < 256 + filled then LinearEntry(k - 256) else 0)
  }

  /** `(i << 28) | access_mask` */
  function LinearEntry(i: nat): u64
    requires i < 256
  {
    i * 0x1000_0000 + LINEAR_FLAGS
  }

  lemma LinearEntryMeans(m: Mem, i: nat, level: Level, page: nat)
    requires i < 256 && level == 2
    ensures EntryTree(m, LinearEntry(i), level) && !IsBranch(LinearEntry(i))
    ensures EntryWalk(m, LinearEntry(i), level, page) == Mapped(i * 262144 + Offset(page, level), LINEAR_FLAGS)
  {
    var e := LinearEntry(i);
    assert e / 1024 == i * 262144 && LeafFlags(e) == LINEAR_FLAGS;
    assert Ppn(e) == i * 262144;
    LeafIsLeaf(e);
  }

  /** The table of vma_create maps the kernel half linearly. */
  lemma LinearTree(m: Mem, root: u64, level: Level)
    requires level == TOP && IsKernelPage(root) && root in m && m[root] == LinearRow(256)
    ensures Tree(m, root, level) && Pages(m, root, level) == {root}
    ensures forall page: nat :: page < PAGES ==> Walk(m, root, level, page) == LinearLayout(page)
  {
    forall k | 0 <= k < ENTRIES
      ensures EntryTree(m, m[root][k], level) && !IsBranch(m[root][k])
    {
      if k >= 256 {
        LinearEntryMeans(m, k - 256, level, 0);
      }
    }
    forall page: nat | page < PAGES
      ensures Walk(m, root, level, page) == LinearLayout(page)
    {
      var k := Slot(page, level);
      assert k == page / 262144;
      if k >= 256 {
        LinearEntryMeans(m, k - 256, level, page);
      }
    }
  }

  // ---- the effect of one mapping call on the layout ----

  /** A window with an unmapped page outside the request is not left uniform. */
  lemma HoleLeft(m: Mem, root: u64, first: nat, count: nat, frame: nat, flags: Flags, hole: nat)
    requires first / 512 * 512 <= hole < first / 512 * 512 + 512
    requires Override(m, root, first, count, frame, flags, hole) == Fault
    ensures !LeavesUniform(m, root, first, count, frame, flags)
  {
  }

  lemma UnmapLayout(m: Mem, n: Mem, root: u64, frame: nat)
    requires forall page: nat :: page < PAGES ==> Walk(m, root, TOP, page) == LinearLayout(page)
    requires Edited(m, n, root, BOTTOM_PAGE, 13, frame, 0)
    ensures HasLayout(n, root, map[], [], [], [])
  {
  }

  lemma TrapLayout(m: Mem, n: Mem, root: u64, user: UserHalf, trap: seq<u64>, stack: seq<u64>, hart: seq<u64>, frame: u64)
    requires HasLayout(m, root, user, trap, stack, hart)
    requires Edited(m, n, root, TRAPFRAME_PAGE, 1, FrameOf(frame), KERNEL_FLAGS)
    ensures HasLayout(n, root, user, [frame], stack, hart)
  {
  }

  lemma StackLayout(m: Mem, n: Mem, root: u64, user: UserHalf, trap: seq<u64>, stack: seq<u64>, hart: seq<u64>, frame: u64)
    requires HasLayout(m, root, user, trap, stack, hart) && |stack| < STACK_PAGES
    requires Edited(m, n, root, STACK_PAGE + |stack|, 1, FrameOf(frame), KERNEL_FLAGS)
    ensures HasLayout(n, root, user, trap, stack + [frame], hart)
  {
  }

  /** The hart stack once its page `i` is mapped to `frame`. */
  ghost function Rebound(hart: seq<u64>, i: nat, frame: u64): (out: seq<u64>)
    requires i <= |hart|
    ensures i < |out| && (|hart| <= STACK_PAGES && i < STACK_PAGES ==> |out| <= STACK_PAGES)
  {
    if i < |hart| then hart[i := frame] else hart + [frame]
  }

  lemma HartLayout(m: Mem, n: Mem, root: u64, user: UserHalf, trap: seq<u64>, stack: seq<u64>, hart: seq<u64>, i: nat, frame: u64)
    requires HasLayout(m, root, user, trap, stack, hart) && i <= |hart| && i < STACK_PAGES
    requires Edited(m, n, root, HART_PAGE + i, 1, FrameOf(frame), KERNEL_FLAGS)
    ensures HasLayout(n, root, user, trap, stack, Rebound(hart, i, frame))
  {
  }

  predicate Requested(page: nat, first: nat, count: nat) {
    first <= page < first + count
  }

  /** The user half after `count` pages from `first` were given frames, or none. */
  ghost function UserMapped(user: UserHalf, first: nat, count: nat, frame: nat, flags: Flags): UserHalf {
    map page: nat | page < KERNEL_PAGE && (page in user || Requested(page, first, count)) ::
      if !Requested(page, first, count) then user[page]
      else if flags == 0 then Fault
      else Mapped(frame + (page - first), flags)
  }

  lemma UserLayout(m: Mem, n: Mem, root: u64, user: UserHalf, trap: seq<u64>, stack: seq<u64>, hart: seq<u64>, first: nat, count: nat, frame: nat, flags: Flags)
    requires HasLayout(m, root, user, trap, stack, hart) && first + count <= KERNEL_PAGE
    requires Edited(m, n, root, first, count, frame, flags)
    ensures HasLayout(n, root, UserMapped(user, first, count, frame, flags), trap, stack, hart)
  {
  }

  // ---- what stays untouched ----

  /** Memory at some moment: its contents, the pages in use and those of one space. */
  datatype Moment = Moment(mem: Mem, used: set<u64>, pages: set<u64>)

  ghost function Now(t: TableMemory, root: u64): Moment
    reads t
  {
    Moment(t.mem, t.inUse, Pages(t.mem, root, TOP))
  }

  /** Outside the space at `root`, memory is as it was at that moment. */
  ghost predicate RestSince(t: TableMemory, root: u64, since: Moment)
    reads t
  {
    && t.inUse - Pages(t.mem, root, TOP) == since.used - since.pages
    && OthersKept(since.mem, t.mem, since.used, since.pages)
  }

  lemma RestStays(m: Mem, n: Mem, used: set<u64>, pages: set<u64>, since: Moment)
    requires used - pages == since.used - since.pages
    requires OthersKept(since.mem, m, since.used, since.pages) && OthersKept(m, n, used, pages)
    ensures OthersKept(since.mem, n, since.used, since.pages)
  {
    OthersKeptTrans(since.mem, m, n, since.used, since.pages, used, pages);
  }

  /** A space built from pages in use, with its layout. */
  ghost predicate Space(t: TableMemory, root: u64, user: UserHalf, trap: seq<u64>, stack: seq<u64>, hart: seq<u64>)
    reads t
  {
    t.Valid() && t.Owns(root) && HasLayout(t.mem, root, user, trap, stack, hart)
  }

  // ---- the calls ----

  function WithFlag(f: Flags, bit: Flags): Flags
    requires bit == VALID || bit == DIRTY || bit == ACCESSED || bit == USER
  {
    if HasFlag(f, bit) then f else f + bit
  }

  /** access_flags | VMA_VALID | VMA_DIRTY | VMA_ACCESSED */
  function KernelFlags(access: Flags): Flags {
    WithFlag(WithFlag(WithFlag(access, VALID), DIRTY), ACCESSED)
  }

  /** vma_map_kernel for one readable and writable page of the top window, as all
      callers use it. The window keeps its unmapped last page, so the tables stay
      a tree of pages in use. It halts only if fewer than two pages are left. */
  method MapKernelPage(t: TableMemory, root: u64, ghost user: UserHalf, ghost trap: seq<u64>, ghost stack: seq<u64>, ghost hart: seq<u64>, ghost since: Moment, va: u64, ghost page: nat, phys: u64) returns (r: Outcome<()>)
    requires Space(t, root, user, trap, stack, hart) && RestSince(t, root, since)
    requires KERN_MAPPING_BOTTOM <= va < 0xFFFF_FFFF_FFFF_F000 && va % PAGE_SIZE == 0 && IsKernelPage(phys)
    requires page == Normal(va) / PAGE_SIZE
    modifies t
    ensures t.Valid()
    ensures r.Done? ==> t.Owns(root) && RestSince(t, root, since)
    ensures r.Done? ==> Edited(old(t.mem), t.mem, root, page, 1, FrameOf(phys), KERNEL_FLAGS)
    ensures r.Halt? ==> old(t.Spare()) < 2
    ensures r.Done? ==> t.Spare() >= old(t.Spare()) - 2
  {
    KernelNotPinned(t.mem, root, user, trap, stack, hart, va, page);
    r := EditTopPage(t, root, va, page, phys);
    if r.Done? {
      RestStays(old(t.mem), t.mem, old(t.inUse), Pages(old(t.mem), root, TOP), since);
    }
  }

  /** The vma_replace_section below it. */
  method EditTopPage(t: TableMemory, root: u64, va: u64, ghost page: nat, phys: u64) returns (r: Outcome<()>)
    requires t.Valid() && t.Owns(root) && Walk(t.mem, root, TOP, PAGES - 1) == Fault && page < PAGES && !PinnedPage(t.mem, root, page)
    requires KERN_MAPPING_BOTTOM <= va < 0xFFFF_FFFF_FFFF_F000 && va % PAGE_SIZE == 0 && IsKernelPage(phys)
    requires page == Normal(va) / PAGE_SIZE
    modifies t
    ensures t.Valid()
    ensures r.Done? ==> t.Owns(root)
    ensures r.Done? ==> Edited(old(t.mem), t.mem, root, page, 1, FrameOf(phys), KERNEL_FLAGS)
    ensures r.Done? ==> t.inUse - Pages(t.mem, root, TOP) == old(t.inUse) - Pages(old(t.mem), root, TOP)
    ensures r.Done? ==> OthersKept(old(t.mem), t.mem, old(t.inUse), Pages(old(t.mem), root, TOP))
    ensures r.Halt? ==> old(t.Spare()) < 2
    ensures r.Done? ==> t.Spare() >= old(t.Spare()) - 2
  {
    assert KernelFlags(READ + WRITE) == KERNEL_FLAGS;
    TopPage(va);
    PinnedHere(t.mem, root, page);
    r := t.ReplaceSection(root, va, PAGE_SIZE, phys, KernelFlags(READ + WRITE));
    HoleLeft(old(t.mem), root, page, 1, FrameOf(phys), KERNEL_FLAGS, PAGES - 1);
  }

  lemma PinnedHere(m: Mem, root: u64, page: nat)
    requires Tree(m, root, TOP) && page < PAGES
    ensures PinnedSuperpage(m, root, Slot(page, 2), Slot(page, 1)) ==> PinnedPage(m, root, page)
  {
    if PinnedSuperpage(m, root, Slot(page, 2), Slot(page, 1)) {
      PinnedWalk(m, root, page);
    }
  }

  /** The top window ends with an unmapped page, and the kernel's own mappings can be
      split. */
  lemma KernelNotPinned(m: Mem, root: u64, user: UserHalf, trap: seq<u64>, stack: seq<u64>, hart: seq<u64>, va: u64, page: nat)
    requires HasLayout(m, root, user, trap, stack, hart)
    requires KERN_MAPPING_BOTTOM <= va < 0xFFFF_FFFF_FFFF_F000 && va % PAGE_SIZE == 0 && page == Normal(va) / PAGE_SIZE
    ensures page < PAGES && !PinnedPage(m, root, page) && Walk(m, root, TOP, PAGES - 1) == Fault
  {
    TopPage(va);
    LayoutFlags(user, trap, stack, hart, page);
    assert Walk(m, root, TOP, page) == Layout(user, trap, stack, hart, page);
  }

  lemma LayoutFlags(user: UserHalf, trap: seq<u64>, stack: seq<u64>, hart: seq<u64>, page: nat)
    requires KERNEL_PAGE <= page
    ensures var w := Layout(user, trap, stack, hart, page);
            w.Mapped? ==> !HasFlag(w.flags, DONT_COMPRESS)
  {
    assert !HasFlag(LINEAR_FLAGS, DONT_COMPRESS) && !HasFlag(KERNEL_FLAGS, DONT_COMPRESS);
  }

  /** Pages of the top window. */
  lemma TopPage(va: u64)
    requires KERN_MAPPING_BOTTOM <= va < 0xFFFF_FFFF_FFFF_F000 && va % PAGE_SIZE == 0
    ensures Normal(va) == va - (KERNEL_VMA_START - USER_TOP)
    ensures BOTTOM_PAGE <= Normal(va) / PAGE_SIZE < PAGES - 1
    ensures InWindow(va, PAGE_SIZE) && Normal(va) / PAGE_SIZE / 512 == (PAGES - 1) / 512
  {
  }

  /** The virtual pages of the two stacks. */
  lemma StackPages(i: nat)
    requires i < STACK_PAGES
    ensures Normal(PROC_KERN_STACK_START + PAGE_SIZE * i) / PAGE_SIZE == STACK_PAGE + i
    ensures Normal(HART_KERN_STACK_START + PAGE_SIZE * i) / PAGE_SIZE == HART_PAGE + i
  {
    TopPage(PROC_KERN_STACK_START + PAGE_SIZE * i);
    TopPage(HART_KERN_STACK_START + PAGE_SIZE * i);
  }

  /** vma_create: a new root table with the linear kernel mapping. */
  method CreateTable(t: TableMemory) returns (r: Outcome<u64>)
    requires t.Valid()
    modifies t
    ensures t.Valid()
    ensures r.Halt? <==> old(t.inUse) == t.managed
    ensures r.Done? ==>
              && r.value !in old(t.inUse) && t.inUse == old(t.inUse) + {r.value}
              && t.Owns(r.value) && Pages(t.mem, r.value, TOP) == {r.value}
              && t.mem == old(t.mem)[r.value := LinearRow(256)]
              && forall page: nat :: page < PAGES ==> Walk(t.mem, r.value, TOP, page) == LinearLayout(page)
    ensures r.Halt? ==> old(t.Spare()) == 0
    ensures r.Done? ==> t.Spare() >= old(t.Spare()) - 1
  {
    ghost var before := t.mem;
    r := t.PgAlloc();
    if r.Halt? {
      return;
    }
    OneLess(t.managed, old(t.inUse), r.value);
    FillLinear(t, r.value, before);
    LinearTree(t.mem, r.value, TOP);
  }

  /** The loop of vma_create. */
  method FillLinear(t: TableMemory, root: u64, ghost before: Mem)
    requires t.mem == before[root := ZeroRow]
    modifies t`mem
    ensures t.mem == before[root := LinearRow(256)]
  {
    assert LinearRow(0) == ZeroRow;
    var i := 0;
    while i < 256
      invariant 0 <= i <= 256
      invariant root in t.mem && t.mem == before[root := t.mem[root]] && t.mem[root] == LinearRow(i)
    {
      var row: seq<u64> := t.mem[root][256 + i := LinearEntry(i)];
      assert row == LinearRow(i + 1);
      t.mem := t.mem[root := row];
      i := i + 1;
    }
  }

  datatype Process = Process(userFrame: u64, kernelFrame: u64, faultFrame: u64, files: u64, stack: seq<u64>, root: u64)

  /** The process's space is built from pages in use and has the layout, with one of
      the process's three trap frames mapped. */
  ghost predicate Laid(t: TableMemory, p: Process, user: UserHalf, frame: u64, hart: seq<u64>)
    reads t
  {
    && t.Owns(p.root) && |p.stack| == STACK_PAGES
    && frame in TrapFrames(p)
    && HasLayout(t.mem, p.root, user, [frame], p.stack, hart)
  }

  ghost function TrapFrames(p: Process): seq<u64> {
    [p.userFrame, p.kernelFrame, p.faultFrame]
  }

  /** The frames of a process are distinct pages in use outside its tables. */
  ghost predicate FramesHeld(t: TableMemory, p: Process)
    reads t
  {
    && |p.stack| == STACK_PAGES
    && Distinct(Frames(p))
    && forall f :: f in Frames(p) ==> f in t.inUse - Pages(t.mem, p.root, TOP) && IsKernelPage(f)
  }

  ghost function Frames(p: Process): seq<u64> {
    [p.userFrame, p.kernelFrame, p.faultFrame, p.files] + p.stack
  }

  ghost predicate Distinct(s: seq<u64>) {
    forall i, j :: 0 <= i < j < |s| ==> s[i] != s[j]
  }

  lemma OneLess(managed: set<u64>, used: set<u64>, a: u64)
    requires a in managed && a !in used
    ensures |managed - (used + {a})| == |managed - used| - 1
  {
    assert managed - (used + {a}) == (managed - used) - {a};
  }

  lemma DistinctPush(s: seq<u64>, a: u64)
    requires Distinct(s) && a !in s
    ensures Distinct(s + [a])
  {
  }

  /** The pages that new_blank_process takes for a process, in order. */
  method TakeFrames(t: TableMemory, count: nat) returns (r: Outcome<seq<u64>>)
    requires t.Valid()
    modifies t
    ensures t.Valid()
    ensures r.Done? ==>
              && |r.value| == count && Distinct(r.value)
              && old(t.inUse) <= t.inUse
              && (forall f :: f in r.value ==> f !in old(t.inUse) && f in t.inUse && IsKernelPage(f))
              && (forall a :: a in old(t.mem) && a in old(t.inUse) ==> a in t.mem && t.mem[a] == old(t.mem)[a])
    ensures r.Halt? ==> old(t.Spare()) < count
    ensures r.Done? ==> t.Spare() >= old(t.Spare()) - count
  {
    var frames: seq<u64> := [];
    while |frames| < count
      invariant |frames| <= count && Distinct(frames) && t.Valid() && old(t.inUse) <= t.inUse
      invariant forall f :: f in frames ==> f !in old(t.inUse) && f in t.inUse && IsKernelPage(f)
      invariant forall a :: a in old(t.mem) && a in old(t.inUse) ==> a in t.mem && t.mem[a] == old(t.mem)[a]
      invariant t.Spare() >= old(t.Spare()) - |frames|
    {
      ghost var used := t.inUse;
      var a := t.PgAlloc();
      if a.Halt? {
        return Halt;
      }
      OneLess(t.managed, used, a.value);
      DistinctPush(frames, a.value);
      frames := frames + [a.value];
    }
    r := Done(frames);
  }

  /** vma_create followed by the unmapping of everything from the bottom of the
      special mappings up. */
  method CreateCutTable(t: TableMemory) returns (r: Outcome<u64>)
    requires t.Valid()
    modifies t
    ensures t.Valid()
    ensures r.Done? ==> Space(t, r.value, map[], [], [], []) && RestSince(t, r.value, Moment(old(t.mem), old(t.inUse), {}))
    ensures r.Halt? ==> old(t.Spare()) < 3
    ensures r.Done? ==> t.Spare() >= old(t.Spare()) - 3
  {
    r := CreateTable(t);
    if r.Halt? {
      return Halt;
    }
    ghost var since := Moment(old(t.mem), old(t.inUse), {});
    assert RestSince(t, r.value, since);
    var cut := CutTable(t, r.value, since);
    if cut.Halt? {
      return Halt;
    }
  }

  lemma BottomRequest()
    ensures Sub64(0, KERN_MAPPING_BOTTOM) == 13 * PAGE_SIZE
    ensures InWindow(KERN_MAPPING_BOTTOM, 13 * PAGE_SIZE) && !OutOfBounds(KERN_MAPPING_BOTTOM, 13 * PAGE_SIZE)
    ensures Normal(KERN_MAPPING_BOTTOM) / PAGE_SIZE == BOTTOM_PAGE
  {
  }

  /** The vma_unmap of new_blank_process. */
  method CutTable(t: TableMemory, root: u64, ghost since: Moment) returns (r: Outcome<()>)
    requires t.Valid() && t.Owns(root) && RestSince(t, root, since)
    requires forall page: nat :: page < PAGES ==> Walk(t.mem, root, TOP, page) == LinearLayout(page)
    modifies t
    ensures t.Valid()
    ensures r.Done? ==> Space(t, root, map[], [], [], []) && RestSince(t, root, since)
    ensures r.Halt? ==> old(t.Spare()) < 2
    ensures r.Done? ==> t.Spare() >= old(t.Spare()) - 2
  {
    LinearNotPinned(t.mem, root, BOTTOM_PAGE);
    var size := Sub64(0, KERN_MAPPING_BOTTOM);
    BottomRequest();
    r := Unmap(t, root, KERN_MAPPING_BOTTOM, size, BOTTOM_PAGE, 13);
    if r.Done? {
      UnmapLayout(old(t.mem), t.mem, root, FrameOf(0));
      RestStays(old(t.mem), t.mem, old(t.inUse), Pages(old(t.mem), root, TOP), since);
    }
  }

  /** vma_unmap: a window with an unmapped page is not uniform, so the tables stay an
      owned tree. */
  method Unmap(t: TableMemory, root: u64, va: u64, size: u64, ghost first: nat, ghost count: nat) returns (r: Outcome<()>)
    requires t.Valid() && t.Owns(root) && InWindow(va, size) && !OutOfBounds(va, size)
    requires first == Normal(va) / PAGE_SIZE && count == size / PAGE_SIZE
    requires !PinnedSuperpage(t.mem, root, Slot(first, 2), Slot(first, 1))
    modifies t
    ensures t.Valid()
    ensures r.Done? ==> t.Owns(root) && Edited(old(t.mem), t.mem, root, first, count, FrameOf(0), 0)
    ensures r.Done? ==> t.inUse - Pages(t.mem, root, TOP) == old(t.inUse) - Pages(old(t.mem), root, TOP)
    ensures r.Done? ==> OthersKept(old(t.mem), t.mem, old(t.inUse), Pages(old(t.mem), root, TOP))
    ensures r.Halt? ==> old(t.Spare()) < 2
    ensures r.Done? ==> t.Spare() >= old(t.Spare()) - 2
  {
    r := t.ReplaceSection(root, va, size, 0, 0);
    HoleLeft(old(t.mem), root, first, count, FrameOf(0), 0, first);
  }

  lemma LinearNotPinned(m: Mem, root: u64, page: nat)
    requires Tree(m, root, TOP) && page < PAGES && Walk(m, root, TOP, page) == LinearLayout(page)
    ensures !PinnedSuperpage(m, root, Slot(page, 2), Slot(page, 1))
  {
    PinnedHere(m, root, page);
    assert !HasFlag(LINEAR_FLAGS, DONT_COMPRESS);
  }

  method MapStackPage(t: TableMemory, root: u64, ghost user: UserHalf, ghost trap: seq<u64>, ghost stack: seq<u64>, ghost since: Moment, i: nat, frame: u64) returns (r: Outcome<()>)
    requires Space(t, root, user, trap, stack, []) && RestSince(t, root, since)
    requires i == |stack| < STACK_PAGES && IsKernelPage(frame)
    modifies t
    ensures t.Valid()
    ensures r.Done? ==> Space(t, root, user, trap, stack + [frame], []) && RestSince(t, root, since)
    ensures r.Halt? ==> old(t.Spare()) < 2
    ensures r.Done? ==> t.Spare() >= old(t.Spare()) - 2
  {
    StackPages(i);
    r := MapKernelPage(t, root, user, trap, stack, [], since, PROC_KERN_STACK_START + PAGE_SIZE * i, STACK_PAGE + i, frame);
    if r.Done? {
      StackLayout(old(t.mem), t.mem, root, user, trap, stack, [], frame);
    }
  }

  method MapHartPage(t: TableMemory, root: u64, ghost user: UserHalf, ghost trap: seq<u64>, ghost stack: seq<u64>, ghost hart: seq<u64>, ghost since: Moment, i: nat, page: u64) returns (r: Outcome<()>)
    requires Space(t, root, user, trap, stack, hart) && RestSince(t, root, since)
    requires i <= |hart| && i < STACK_PAGES && IsKernelPage(page)
    modifies t
    ensures t.Valid()
    ensures r.Done? ==> Space(t, root, user, trap, stack, Rebound(hart, i, page)) && RestSince(t, root, since)
    ensures r.Halt? ==> old(t.Spare()) < 2
    ensures r.Done? ==> t.Spare() >= old(t.Spare()) - 2
  {
    StackPages(i);
    r := MapKernelPage(t, root, user, trap, stack, hart, since, HART_KERN_STACK_START + PAGE_SIZE * i, HART_PAGE + i, page);
    if r.Done? {
      HartLayout(old(t.mem), t.mem, root, user, trap, stack, hart, i, page);
    }
  }

  /** vma_map_kernel of a trap frame at the trap-frame address, over whatever was
      mapped there. */
  method MapTrapFrame(t: TableMemory, root: u64, ghost user: UserHalf, ghost trap: seq<u64>, ghost stack: seq<u64>, ghost hart: seq<u64>, ghost since: Moment, frame: u64) returns (r: Outcome<()>)
    requires Space(t, root, user, trap, stack, hart) && RestSince(t, root, since) && IsKernelPage(frame)
    modifies t
    ensures t.Valid()
    ensures r.Done? ==> Space(t, root, user, [frame], stack, hart) && RestSince(t, root, since)
    ensures r.Halt? ==> old(t.Spare()) < 2
    ensures r.Done? ==> t.Spare() >= old(t.Spare()) - 2
  {
    TopPage(TRAPFRAME_ADDRESS);
    r := MapKernelPage(t, root, user, trap, stack, hart, since, TRAPFRAME_ADDRESS, TRAPFRAME_PAGE, frame);
    if r.Done? {
      TrapLayout(old(t.mem), t.mem, root, user, trap, stack, hart, frame);
    }
  }

  /** The loop of new_blank_process over the kernel stack. */
  method MapStack(t: TableMemory, root: u64, ghost user: UserHalf, ghost trap: seq<u64>, ghost since: Moment, stack: seq<u64>) returns (r: Outcome<()>)
    requires Space(t, root, user, trap, [], []) && RestSince(t, root, since)
    requires |stack| == STACK_PAGES && forall f :: f in stack ==> IsKernelPage(f)
    modifies t
    ensures t.Valid()
    ensures r.Done? ==> Space(t, root, user, trap, stack, []) && RestSince(t, root, since)
    ensures r.Halt? ==> old(t.Spare()) < 8
    ensures r.Done? ==> t.Spare() >= old(t.Spare()) - 8
  {
    var i := 0;
    assert stack[..i] == [];
    while i < STACK_PAGES
      invariant 0 <= i <= STACK_PAGES
      invariant Space(t, root, user, trap, stack[..i], []) && RestSince(t, root, since)
      invariant t.Spare() >= old(t.Spare()) - 2 * i
    {
      var page := MapStackPage(t, root, user, trap, stack[..i], since, i, stack[i]);
      if page.Halt? {
        return Halt;
      }
      TakeOne(stack, i);
      i := i + 1;
    }
    TakeAll(stack, stack);
    r := Done(());
  }

  /** The mapping calls of new_blank_process. */
  method BuildSpace(t: TableMemory, trap: u64, stack: seq<u64>) returns (r: Outcome<u64>)
    requires t.Valid() && |stack| == STACK_PAGES
    requires IsKernelPage(trap) && forall f :: f in stack ==> IsKernelPage(f)
    modifies t
    ensures t.Valid()
    ensures r.Done? ==>
              Space(t, r.value, map[], [trap], stack, []) && RestSince(t, r.value, Moment(old(t.mem), old(t.inUse), {}))
    ensures r.Halt? ==> old(t.Spare()) < 13
    ensures r.Done? ==> t.Spare() >= old(t.Spare()) - 13
  {
    r := CreateCutTable(t);
    if r.Halt? {
      return Halt;
    }
    ghost var since := Moment(old(t.mem), old(t.inUse), {});
    var mapped := MapTrapFrame(t, r.value, map[], [], [], [], since, trap);
    if mapped.Halt? {
      return Halt;
    }
    mapped := MapStack(t, r.value, map[], [trap], since, stack);
    if mapped.Halt? {
      return Halt;
    }
  }

  /** new_blank_process, as far as memory goes: eight pages for the process and an
      address space that maps its trap frame and kernel stack to exactly those
      frames, nothing else from the bottom of the special mappings up, and the
      linear kernel mapping below; every other space is untouched. */
  method NewBlankProcess(t: TableMemory) returns (r: Outcome<Process>)
    requires t.Valid()
    modifies t
    ensures t.Valid()
    ensures r.Done? ==> Laid(t, r.value, map[], r.value.userFrame, []) && FramesHeld(t, r.value)
    ensures r.Done? ==> old(t.inUse) <= t.inUse - Pages(t.mem, r.value.root, TOP)
    ensures r.Done? ==> OthersKept(old(t.mem), t.mem, old(t.inUse), {})
    ensures r.Halt? ==> old(t.Spare()) < 21
    ensures r.Done? ==> t.Spare() >= old(t.Spare()) - 21
  {
    var frames := TakeFrames(t, 4 + STACK_PAGES);
    if frames.Halt? {
      return Halt;
    }
    r := SpaceFor(t, frames.value);
  }

  /** A process with these pages. */
  function MakeProcess(f: seq<u64>, root: u64): (p: Process)
    requires |f| == 4 + STACK_PAGES
    ensures p.userFrame == f[0] && p.stack == f[4..] && p.root == root
    ensures [p.userFrame, p.kernelFrame, p.faultFrame, p.files] + p.stack == f
  {
    Process(f[0], f[1], f[2], f[3], f[4..], root)
  }

  lemma FirstOf(f: seq<u64>)
    requires |f| == 4 + STACK_PAGES
    ensures f[0] in f && forall a :: a in f[4..] ==> a in f
  {
  }

  /** The address space of a process with these pages. */
  method SpaceFor(t: TableMemory, f: seq<u64>) returns (r: Outcome<Process>)
    requires t.Valid() && |f| == 4 + STACK_PAGES && Distinct(f)
    requires forall a :: a in f ==> a in t.inUse && IsKernelPage(a)
    modifies t
    ensures t.Valid()
    ensures r.Done? ==> Laid(t, r.value, map[], r.value.userFrame, []) && FramesHeld(t, r.value)
    ensures r.Done? ==> RestSince(t, r.value.root, Moment(old(t.mem), old(t.inUse), {}))
    ensures r.Halt? ==> old(t.Spare()) < 13
    ensures r.Done? ==> t.Spare() >= old(t.Spare()) - 13
  {
    FirstOf(f);
    var space := BuildSpace(t, f[0], f[4..]);
    if space.Halt? {
      return Halt;
    }
    r := Done(MakeProcess(f, space.value));
  }

  lemma TakeOne(s: seq<u64>, i: nat)
    requires i < |s|
    ensures s[..i] + [s[i]] == s[..i + 1]
  {
  }

  lemma TakeAll(s: seq<u64>, other: seq<u64>)
    requires |s| == |other| == STACK_PAGES && s[..STACK_PAGES] == other[..STACK_PAGES]
    ensures s == other && s[..STACK_PAGES] == s
  {
    assert s[..STACK_PAGES] == s;
    assert other[..STACK_PAGES] == other;
  }

  lemma Replaced(now: seq<u64>, target: seq<u64>, i: nat)
    requires i <= |now| && i < |target| && now[..i] == target[..i]
    ensures Rebound(now, i, target[i])[..i + 1] == target[..i + 1]
  {
    assert Rebound(now, i, target[i])[..i + 1] == now[..i] + [target[i]];
    assert target[..i + 1] == target[..i] + [target[i]];
  }

  /** The loop of process_update_context_switch. */
  method MapHartStack(t: TableMemory, root: u64, ghost user: UserHalf, ghost trap: seq<u64>, ghost procStack: seq<u64>, ghost bound: seq<u64>, ghost since: Moment, stack: seq<u64>) returns (r: Outcome<()>)
    requires Space(t, root, user, trap, procStack, bound) && RestSince(t, root, since)
    requires |bound| == 0 || |bound| == STACK_PAGES
    requires |stack| == STACK_PAGES && forall f :: f in stack ==> IsKernelPage(f)
    modifies t
    ensures t.Valid()
    ensures r.Done? ==> Space(t, root, user, trap, procStack, stack) && RestSince(t, root, since)
    ensures r.Halt? ==> old(t.Spare()) < 8
    ensures r.Done? ==> t.Spare() >= old(t.Spare()) - 8
  {
    ghost var now := bound;
    var i := 0;
    while i < STACK_PAGES
      invariant 0 <= i <= STACK_PAGES && i <= |now| <= STACK_PAGES && now[..i] == stack[..i]
      invariant Space(t, root, user, trap, procStack, now) && RestSince(t, root, since)
      invariant t.Spare() >= old(t.Spare()) - 2 * i
    {
      var page := MapHartPage(t, root, user, trap, procStack, now, since, i, stack[i]);
      if page.Halt? {
        return Halt;
      }
      Replaced(now, stack, i);
      now := Rebound(now, i, stack[i]);
      i := i + 1;
    }
    TakeAll(now, stack);
    r := Done(());
  }

  /** The stack pages of a hart; none for `U64_MAX`, the hart of a process that
      never ran. */
  function HartStack(hartStacks: seq<u64>, hart: nat): (stack: seq<u64>)
    ensures |stack| == 0 || |stack| == STACK_PAGES
    ensures forall f :: f in stack ==> f in hartStacks
  {
    if (hart + 1) * STACK_PAGES <= |hartStacks| then hartStacks[hart * STACK_PAGES..(hart + 1) * STACK_PAGES] else []
  }

  /** process_update_context_switch: a process laid out for the hart it last ran on,
      whatever its user half and whichever of its trap frames is mapped, is
      afterwards laid out for the new hart; nothing else changes. */
  method BindHart(t: TableMemory, p: Process, ghost user: UserHalf, ghost frame: u64, lastHart: u64, hartStacks: seq<u64>, hart: u64) returns (r: Outcome<()>)
    requires t.Valid() && Laid(t, p, user, frame, HartStack(hartStacks, lastHart))
    requires |hartStacks| >= (hart + 1) * STACK_PAGES && forall f :: f in hartStacks ==> IsKernelPage(f)
    modifies t
    ensures t.Valid()
    ensures r.Done? ==> Laid(t, p, user, frame, HartStack(hartStacks, hart)) && RestSince(t, p.root, old(Now(t, p.root)))
    ensures lastHart == hart ==> r.Done? && t.mem == old(t.mem) && t.inUse == old(t.inUse)
    ensures r.Halt? ==> old(t.Spare()) < 8
    ensures r.Done? ==> t.Spare() >= old(t.Spare()) - 8
  {
    if lastHart == hart {
      return Done(());
    }
    r := MapHartStack(t, p.root, user, [frame], p.stack, HartStack(hartStacks, lastHart), Now(t, p.root), HartStack(hartStacks, hart));
  }

  // ---- user pages and trap frames of a process ----

  /** The frame switches of handle_async_trap: another of the process's trap frames
      is mapped, and nothing else of its layout changes. */
  method SwitchFrame(t: TableMemory, p: Process, ghost user: UserHalf, ghost frame: u64, ghost hart: seq<u64>, next: u64) returns (r: Outcome<()>)
    requires t.Valid() && Laid(t, p, user, frame, hart) && next in TrapFrames(p) && IsKernelPage(next)
    modifies t
    ensures t.Valid()
    ensures r.Done? ==> Laid(t, p, user, next, hart) && RestSince(t, p.root, old(Now(t, p.root)))
    ensures r.Halt? ==> old(t.Spare()) < 2
    ensures r.Done? ==> t.Spare() >= old(t.Spare()) - 2
  {
    r := MapTrapFrame(t, p.root, user, [frame], p.stack, hart, Now(t, p.root), next);
  }

  /** access_flags | VMA_VALID | VMA_USER | VMA_DIRTY | VMA_ACCESSED */
  function UserFlags(access: Flags): Flags {
    WithFlag(KernelFlags(access), USER)
  }

  /** A request in the user half. */
  predicate InUserHalf(va: u64, size: u64) {
    va < USER_TOP && va + size <= USER_TOP
  }

  lemma UserRequest(va: u64, size: u64)
    requires InUserHalf(va, size) && InWindow(va, size)
    ensures Normal(va) == va && !OutOfBounds(va, size)
    ensures va / PAGE_SIZE + size / PAGE_SIZE <= KERNEL_PAGE
  {
  }

  /** vma_map_user: the user half is overridden on exactly the request, the kernel
      half keeps its layout. The tables stay an owned tree if and only if the 2 MiB
      window is not left uniformly mapped. */
  method MapUser(t: TableMemory, p: Process, ghost user: UserHalf, ghost frame: u64, ghost hart: seq<u64>, va: u64, size: u64, phys: u64, access: Flags) returns (r: Outcome<()>)
    requires t.Valid() && Laid(t, p, user, frame, hart)
    requires InUserHalf(va, size) && InWindow(va, size)
    requires LeafFlagsOk(UserFlags(access)) && FramesOk(phys, size, UserFlags(access))
    modifies t
    ensures t.Valid()
    ensures r.Done? ==>
              HasLayout(t.mem, p.root, UserMapped(user, va / PAGE_SIZE, size / PAGE_SIZE, FrameOf(phys), UserFlags(access)),
                        [frame], p.stack, hart)
    ensures r.Done? ==> RestSince(t, p.root, old(Now(t, p.root)))
    ensures r.Done? ==>
              (t.Owns(p.root) <==>
               !LeavesUniform(old(t.mem), p.root, va / PAGE_SIZE, size / PAGE_SIZE, FrameOf(phys), UserFlags(access)))
    ensures r.Halt? ==> old(t.Spare()) < 2 || PinnedPage(old(t.mem), p.root, va / PAGE_SIZE)
    ensures r.Done? ==> t.Spare() >= old(t.Spare()) - 2
  {
    UserRequest(va, size);
    PinnedHere(t.mem, p.root, va / PAGE_SIZE);
    r := t.ReplaceSection(p.root, va, size, phys, UserFlags(access));
    if r.Done? {
      UserLayout(old(t.mem), t.mem, p.root, user, [frame], p.stack, hart, va / PAGE_SIZE, size / PAGE_SIZE, FrameOf(phys), UserFlags(access));
    }
  }

  const PROGRAM_PAGE := 1
  const PROGRAM_ADDRESS: u64 := 0x1000

  /** The user half of a process that has its program mapped and nothing else. */
  ghost function Program(phys: u64, access: Flags): UserHalf {
    map[PROGRAM_PAGE := Mapped(FrameOf(phys), UserFlags(access))]
  }

  lemma ProgramMapped(phys: u64, access: Flags)
    requires UserFlags(access) != 0
    ensures UserMapped(map[], PROGRAM_PAGE, 1, FrameOf(phys), UserFlags(access)) == Program(phys, access)
  {
  }

  /** processes_init and create_init_process, as far as memory goes: a blank process
      and its one-page program at 0x1000. */
  method CreateProcess(t: TableMemory, phys: u64, access: Flags) returns (r: Outcome<Process>)
    requires t.Valid() && phys >= KERNEL_VMA_START && LeafFlagsOk(UserFlags(access))
    modifies t
    ensures t.Valid()
    ensures r.Done? ==> Laid(t, r.value, Program(phys, access), r.value.userFrame, []) && FramesHeld(t, r.value)
    ensures r.Done? ==> old(t.inUse) <= t.inUse - Pages(t.mem, r.value.root, TOP)
    ensures r.Done? ==> OthersKept(old(t.mem), t.mem, old(t.inUse), {})
    ensures r.Halt? ==> old(t.Spare()) < 23
    ensures r.Done? ==> t.Spare() >= old(t.Spare()) - 23
  {
    r := NewBlankProcess(t);
    if r.Halt? {
      return;
    }
    ghost var m1, used1 := t.mem, t.inUse;
    var mapped := MapProgram(t, r.value, phys, access);
    if mapped.Halt? {
      return Halt;
    }
    KeptTwice(old(t.mem), m1, t.mem, old(t.inUse), used1, Pages(m1, r.value.root, TOP));
  }

  lemma KeptTwice(m0: Mem, m1: Mem, m2: Mem, used: set<u64>, used1: set<u64>, pages: set<u64>)
    requires OthersKept(m0, m1, used, {}) && OthersKept(m1, m2, used1, pages) && used <= used1 - pages
    ensures OthersKept(m0, m2, used, {})
  {
  }

  /** The vma_map_user call of a new process. */
  method MapProgram(t: TableMemory, p: Process, phys: u64, access: Flags) returns (r: Outcome<()>)
    requires t.Valid() && Laid(t, p, map[], p.userFrame, [])
    requires phys >= KERNEL_VMA_START && LeafFlagsOk(UserFlags(access))
    modifies t
    ensures t.Valid()
    ensures r.Done? ==> Laid(t, p, Program(phys, access), p.userFrame, []) && RestSince(t, p.root, old(Now(t, p.root)))
    ensures r.Halt? ==> old(t.Spare()) < 2
    ensures r.Done? ==> t.Spare() >= old(t.Spare()) - 2
  {
    ProgramRequest(phys);
    assert Walk(t.mem, p.root, TOP, PROGRAM_PAGE) == Fault;
    r := MapUser(t, p, map[], p.userFrame, [], PROGRAM_ADDRESS, PAGE_SIZE, phys, access);
    HoleLeft(old(t.mem), p.root, PROGRAM_PAGE, 1, FrameOf(phys), UserFlags(access), 0);
    ProgramMapped(phys, access);
  }

  lemma ProgramRequest(phys: u64)
    requires phys >= KERNEL_VMA_START
    ensures InUserHalf(PROGRAM_ADDRESS, PAGE_SIZE) && InWindow(PROGRAM_ADDRESS, PAGE_SIZE)
    ensures Sub64(phys, KERNEL_VMA_START) + PAGE_SIZE <= 0x100_0000_0000_0000
  {
  }

  /** A process that is created and then run by a hart: exactly its program, the
      trap frame, its kernel stack and the hart's stack, nothing else from the bottom
      of the special mappings up, and the linear kernel mapping below. */
  method CreateAndBind(t: TableMemory, phys: u64, access: Flags, hartStacks: seq<u64>, hart: u64) returns (r: Outcome<Process>)
    requires t.Valid() && phys >= KERNEL_VMA_START && LeafFlagsOk(UserFlags(access))
    requires |hartStacks| < 0x1_0000_0000 && |hartStacks| >= (hart + 1) * STACK_PAGES
    requires forall f :: f in hartStacks ==> IsKernelPage(f)
    modifies t
    ensures t.Valid()
    ensures r.Done? ==> Laid(t, r.value, Program(phys, access), r.value.userFrame, HartStack(hartStacks, hart))
    ensures r.Halt? ==> old(t.Spare()) < 31
    ensures r.Done? ==> t.Spare() >= old(t.Spare()) - 31
  {
    r := CreateProcess(t, phys, access);
    if r.Halt? {
      return;
    }
    NeverRan(hartStacks);
    var bound := BindHart(t, r.value, Program(phys, access), r.value.userFrame, NEVER_RAN, hartStacks, hart);
    if bound.Halt? {
      return Halt;
    }
  }

  /** last_hart of a process that never ran */
  const NEVER_RAN: u64 := 0xffff_ffff_ffff_ffff

  lemma NeverRan(hartStacks: seq<u64>)
    requires |hartStacks| < 0x1_0000_0000
    ensures HartStack(hartStacks, NEVER_RAN) == []
  {
  }
}
