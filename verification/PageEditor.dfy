/**
 vma_replace_section and its helpers as they run: on the pages of one physical
 memory, which holds the tables of every process.
 */
module PageEditor {
  import opened Machine
  import opened Sv39
  import opened TableEdits
  import opened VirtualMemory
  import Splitter

  const ZeroRow := seq(ENTRIES, i => 0 as u64)

  lemma GrownTwice(a: set<u64>, b: set<u64>, c: set<u64>)
    requires a <= b <= c && |b - a| <= 1 && |c - b| <= 1
    ensures |c - a| <= 2
  {
    assert c - a == (c - b) + (b - a);
  }

  lemma SmallerDifference(less: set<u64>, more: set<u64>, base: set<u64>)
    requires less <= more
    ensures |less - base| <= |more - base|
  {
    var rest := (more - base) - (less - base);
    assert more - base == (less - base) + rest;
  }

  lemma StillFree(managed: set<u64>, used: set<u64>, more: set<u64>, n: nat)
    requires used <= managed && more <= managed && |more - used| <= n
    ensures |managed - more| >= |managed - used| - n
  {
    var lost := (managed - used) * more;
    SubsetSize(lost, more - used);
    assert managed - used == ((managed - used) - more) + lost;
    SubsetSize((managed - used) - more, managed - more);
  }

  lemma SubsetSize(a: set<u64>, b: set<u64>)
    requires a <= b
    ensures |a| <= |b|
  {
    assert b == a + (b - a);
  }

  class TableMemory {
    /** Contents of pages, freed ones included. */
    var mem: Mem
    /** Pages handed out by pg_alloc and not yet freed. */
    var inUse: set<u64>
    /** Pages the pager manages. */
    const managed: set<u64>

    ghost predicate Valid()
      reads this
    {
      && inUse <= managed
      && forall a :: a in managed ==> IsKernelPage(a)
    }

    /** Pages left to allocate. */
    ghost function Spare(): nat
      reads this
    {
      |managed - inUse|
    }

    /** The tree at `root` is built from pages in use. */
    ghost predicate Owns(root: u64)
      reads this
    {
      Tree(mem, root, TOP) && Pages(mem, root, TOP) <= inUse
    }

    /** A zeroed page nobody holds, or `PANIC` when none is left. */
    method PgAlloc() returns (r: Outcome<u64>)
      requires Valid()
      modifies this
      ensures Valid()
      ensures r.Done? ==>
                && IsKernelPage(r.value) && r.value in managed && r.value !in old(inUse)
                && inUse == old(inUse) + {r.value}
                && mem == old(mem)[r.value := ZeroRow]
      ensures r.Halt? <==> old(inUse) == managed
      ensures r.Halt? ==> mem == old(mem) && inUse == old(inUse)
    {
      if a :| a in managed && a !in inUse {
        inUse := inUse + {a};
        mem := mem[a := ZeroRow];
        r := Done(a);
      } else {
        r := Halt;
      }
    }

    method PgFree(page: u64)
      requires Valid() && page in inUse
      modifies this`inUse
      ensures Valid()
      ensures inUse == old(inUse) - {page}
    {
      inUse := inUse - {page};
    }

    /** Replaces the leaf at entry `i` of `table` by a branch to a new table that
        maps the same frames piece by piece. */
    method ExpandLeaf(table: u64, i: nat, jump: u64) returns (r: Outcome<u64>)
      requires Valid() && table in inUse && table in mem && |mem[table]| == ENTRIES && i < ENTRIES
      modifies this
      ensures Valid()
      ensures r.Halt? <==>
              old(inUse) == managed || HasFlag(LeafFlags(old(mem)[table][i]), DONT_COMPRESS)
      ensures r.Done? ==>
                && IsKernelPage(r.value) && r.value !in old(inUse)
                && inUse == old(inUse) + {r.value}
                && mem == old(mem)[r.value := Expanded(old(mem)[table][i], jump)]
                                  [table := old(mem)[table][i := CreateBranch(r.value)]]
    {
      var leaf := mem[table][i];
      var a := PgAlloc();
      if a.Halt? {
        return Halt;
      }
      var branch := a.value;
      var location := PhysLeafLoc(leaf);
      var flags := LeafFlags(leaf);
      if HasFlag(flags, DONT_COMPRESS) {
        return Halt;
      }
      var linked: seq<u64> := mem[table][i := CreateBranch(branch)];
      mem := mem[table := linked];
      ghost var before := mem;
      var k := 0;
      assert Expanded(leaf, jump)[..k] + ZeroRow[k..] == ZeroRow;
      while k < ENTRIES
        modifies this`mem
        invariant 0 <= k <= ENTRIES
        invariant branch in mem && mem == before[branch := mem[branch]]
        invariant mem[branch] == Expanded(leaf, jump)[..k] + ZeroRow[k..]
      {
        var e := CreateLeaf(Add64(location, (k * (jump / ENTRIES)) % TWO_TO_64), flags);
        var filled: seq<u64> := mem[branch][k := e];
        mem := mem[branch := filled];
        k := k + 1;
      }
      assert mem[branch] == Expanded(leaf, jump);
      r := Done(branch);
    }

    /** Frees the table below entry `i` when it holds nothing, unlinking it, or
        when it is uniform, leaving it linked. */
    method ShrinkBranch(table: u64, i: nat, jump: u64)
      requires Valid() && table in mem && |mem[table]| == ENTRIES && i < ENTRIES
      requires IsBranch(mem[table][i]) ==>
                 BranchLoc(mem[table][i]) in mem && |mem[BranchLoc(mem[table][i])]| == ENTRIES
      requires Shrunk(mem, table, i, jump).1 <= inUse
      requires IsBranch(mem[table][i]) ==> BranchLoc(mem[table][i]) != 0
      modifies this
      ensures Valid()
      ensures mem == old(Shrunk(mem, table, i, jump).0)
      ensures inUse == old(inUse) - old(Shrunk(mem, table, i, jump).1)
    {
      var leaves := BranchLoc(mem[table][i]);
      if leaves == 0 {
        return;
      }
      var canShrink := true;
      var row := mem[leaves];
      var k := 0;
      if row[0] == 0 {
        while k < ENTRIES
          invariant 0 <= k <= ENTRIES
          invariant canShrink <==> forall j :: 0 <= j < k ==> row[j] == 0
        {
          canShrink := canShrink && row[k] == 0;
          k := k + 1;
        }
      } else {
        while k < ENTRIES
          invariant 0 <= k <= ENTRIES
          invariant canShrink <==> forall j :: 0 <= j < k ==> MatchesFirst(row, jump / ENTRIES, j)
        {
          canShrink := canShrink && MatchesFirst(row, jump / ENTRIES, k);
          k := k + 1;
        }
      }
      if canShrink {
        if row[0] == 0 {
          var emptied: seq<u64> := mem[table][i := 0];
          mem := mem[table := emptied];
        }
        PgFree(leaves);
      }
    }

    /** get_branch_loc at entry `i` of `table`, splitting the entry if it is not
        a branch yet. */
    method BranchOrExpand(table: u64, i: nat, jump: u64) returns (r: Outcome<u64>)
      requires Valid() && table in inUse && table in mem && |mem[table]| == ENTRIES && i < ENTRIES
      requires IsBranch(mem[table][i]) ==> BranchLoc(mem[table][i]) != 0
      modifies this
      ensures Valid()
      ensures old(IsBranch(mem[table][i])) ==>
                r == Done(old(BranchLoc(mem[table][i]))) && mem == old(mem) && inUse == old(inUse)
      ensures !old(IsBranch(mem[table][i])) ==>
                && (r.Halt? <==>
                    old(inUse) == managed || HasFlag(LeafFlags(old(mem)[table][i]), DONT_COMPRESS))
                && (r.Done? ==>
                      && IsKernelPage(r.value) && r.value !in old(inUse)
                      && inUse == old(inUse) + {r.value}
                      && mem == old(mem)[r.value := Expanded(old(mem)[table][i], jump)]
                                        [table := old(mem)[table][i := CreateBranch(r.value)]])
    {
      var found := BranchLoc(mem[table][i]);
      if found == 0 {
        r := ExpandLeaf(table, i, jump);
      } else {
        r := Done(found);
      }
    }

    /** The first level of the descent. */
    method OpenFirst(root: u64, i2: nat, ghost i1: nat) returns (r: Outcome<u64>)
      requires Valid() && Owns(root) && i2 < ENTRIES && i1 < ENTRIES
      modifies this
      ensures Valid()
      ensures r.Halt? ==> !old(IsBranch(mem[root][i2])) && (old(PinnedSuperpage(mem, root, i2, i1)) || old(inUse) == managed)
      ensures r.Done? ==>
                && Owns(root) && HasChild(mem, root, TOP, i2, r.value)
                && SameWalk(old(mem), mem, root, TOP)
                && inUse - Pages(mem, root, TOP) == old(inUse) - Pages(old(mem), root, TOP)
                && OthersKept(old(mem), mem, old(inUse), Pages(old(mem), root, TOP))
                && (old(PinnedSuperpage(mem, root, i2, i1)) <==> PinnedSuperpage(mem, root, i2, i1))
                && old(inUse) <= inUse && |inUse - old(inUse)| <= 1
    {
      ghost var m0, used0 := mem, inUse;
      assert root in Pages(mem, root, TOP);
      if IsBranch(mem[root][i2]) {
        BranchNotNull(mem, root, TOP, i2);
      }
      r := BranchOrExpand(root, i2, EntryBytes(2));
      if r.Done? && !IsBranch(m0[root][i2]) {
        OpenRoot(m0, mem, root, i2, r.value);
        assert EntryTree(m0, m0[root][i2], TOP);
        PieceFlags(m0[root][i2], TOP, i1);
        RestKept(used0, Pages(m0, root, TOP), r.value);
        OthersKeptStep(m0, mem, used0, Pages(m0, root, TOP), r.value, root,
                       Expanded(m0[root][i2], EntryBytes(2)), m0[root][i2 := CreateBranch(r.value)]);
        assert inUse - used0 == {r.value};
      }
    }

    /** The second level of the descent. */
    method OpenNext(root: u64, i2: nat, i1: nat, t1: u64) returns (r: Outcome<u64>)
      requires Valid() && Owns(root) && i1 < ENTRIES && HasChild(mem, root, TOP, i2, t1)
      modifies this
      ensures Valid()
      ensures r.Halt? ==> old(PinnedSuperpage(mem, root, i2, i1)) || old(inUse) == managed
      ensures old(PinnedSuperpage(mem, root, i2, i1)) ==> r.Halt?
      ensures r.Done? ==>
                && Owns(root) && Window(mem, root, i2, i1, t1, r.value)
                && SameWalk(old(mem), mem, root, TOP)
                && inUse - Pages(mem, root, TOP) == old(inUse) - Pages(old(mem), root, TOP)
                && OthersKept(old(mem), mem, old(inUse), Pages(old(mem), root, TOP))
                && old(inUse) <= inUse && |inUse - old(inUse)| <= 1
    {
      ghost var m0, used0 := mem, inUse;
      ChildFacts(mem, root, TOP, i2);
      if IsBranch(mem[t1][i1]) {
        BranchNotNull(mem, t1, TOP - 1, i1);
      }
      r := BranchOrExpand(t1, i1, EntryBytes(1));
      if r.Done? {
        if IsBranch(m0[t1][i1]) {
          WindowOfPath(m0, root, i2, i1, t1, r.value);
        } else {
          OpenSecond(m0, mem, root, i2, i1, t1, r.value);
          RestKept(used0, Pages(m0, root, TOP), r.value);
          OthersKeptStep(m0, mem, used0, Pages(m0, root, TOP), r.value, t1,
                         Expanded(m0[t1][i1], EntryBytes(1)), m0[t1][i1 := CreateBranch(r.value)]);
          assert inUse - used0 == {r.value};
        }
      }
    }

    /** Descends from the root to the table of one 2 MiB window, splitting the
        superpages on the way; no translation changes. */
    method OpenWindow(root: u64, i2: nat, i1: nat) returns (r: Outcome<(u64, u64)>)
      requires Valid() && Owns(root) && i2 < ENTRIES && i1 < ENTRIES
      modifies this
      ensures Valid()
      ensures old(PinnedSuperpage(mem, root, i2, i1)) ==> r.Halt?
      ensures r.Halt? ==> old(PinnedSuperpage(mem, root, i2, i1)) || |managed - old(inUse)| < 2
      ensures r.Done? ==>
                && Owns(root) && Window(mem, root, i2, i1, r.value.0, r.value.1)
                && SameWalk(old(mem), mem, root, TOP)
                && inUse - Pages(mem, root, TOP) == old(inUse) - Pages(old(mem), root, TOP)
                && OthersKept(old(mem), mem, old(inUse), Pages(old(mem), root, TOP))
                && old(inUse) <= inUse && |inUse - old(inUse)| <= 2
    {
      ghost var m0, used0 := mem, inUse;
      var first := OpenFirst(root, i2, i1);
      if first.Halt? {
        return Halt;
      }
      ghost var m1, used1 := mem, inUse;
      var second := OpenNext(root, i2, i1, first.value);
      if second.Halt? {
        assert used1 == managed ==> managed - used0 == used1 - used0;
        return Halt;
      }
      OthersKeptTrans(m0, m1, mem, used0, Pages(m0, root, TOP), used1, Pages(m1, root, TOP));
      GrownTwice(used0, used1, inUse);
      r := Done((first.value, second.value));
    }

    /** The small-page phase: one leaf per page of the request. */
    method WriteSmallPages(t0: u64, at: nat, count: nat, phys: u64, flags: Flags)
      requires t0 in mem && |mem[t0]| == ENTRIES && at + count <= ENTRIES
      modifies this`mem
      ensures mem == old(mem)[t0 := Written(old(mem)[t0], at, count, phys, flags)]
    {
      ghost var before := mem;
      var offset, slot, i := 0, at, 0;
      assert Written(before[t0], at, 0, phys, flags) == before[t0];
      while i < count
        invariant 0 <= i <= count && slot == at + i && offset == i * PAGE_SIZE
        invariant mem == before[t0 := Written(before[t0], at, i, phys, flags)]
      {
        WrittenStep(before[t0], at, i, phys, flags);
        var row: seq<u64> := mem[t0][slot := CreateLeaf(Add64(phys, offset), flags)];
        mem := mem[t0 := row];
        offset := offset + PAGE_SIZE;
        slot := slot + 1;
        i := i + 1;
      }
    }

    /** The edit of the window's table, seen from the root. */
    method FillWindow(root: u64, first: nat, count: nat, ghost t1: u64, t0: u64, phys: u64, ghost size: u64, flags: Flags)
      requires Request(first, count, phys, size, flags)
      requires Owns(root) && Window(mem, root, Slot(first, 2), Slot(first, 1), t1, t0)
      modifies this`mem
      ensures Owns(root) && Window(mem, root, Slot(first, 2), Slot(first, 1), t1, t0)
      ensures Pages(mem, root, TOP) == Pages(old(mem), root, TOP)
      ensures Edited(old(mem), mem, root, first, count, FrameOf(phys), flags)
      ensures LeavesUniform(old(mem), root, first, count, FrameOf(phys), flags)
         <==> mem[t0][0] != 0 && Uniform(mem[t0], PAGE_SIZE)
      ensures OthersKept(old(mem), mem, inUse, Pages(old(mem), root, TOP))
    {
      ghost var m1 := mem;
      WriteSmallPages(t0, first % 512, count, phys, flags);
      WriteWindow(m1, mem, root, first, count, t1, t0, phys, size, flags);
      WindowUniform(m1, mem, root, first, count, FrameOf(phys), flags, t1, t0);
      WindowOfPath(m1, root, Slot(first, 2), Slot(first, 1), t1, t0);
      OthersKeptEdit(m1, mem, inUse, Pages(m1, root, TOP), t0, mem[t0]);
    }

    /** Shrinks the edited window itself. */
    method CloseLast(root: u64, i2: nat, i1: nat, t1: u64, ghost t0: u64)
      requires Valid() && Owns(root) && Window(mem, root, i2, i1, t1, t0)
      modifies this
      ensures Valid() && inUse <= old(inUse)
      ensures HasChild(mem, root, TOP, i2, t1) && t1 in inUse
      ensures mem[t1][i1] == 0 || IsBranch(mem[t1][i1])
      ensures SameWalk(old(mem), mem, root, TOP)
      ensures Pages(mem, root, TOP) <= inUse
         <==> !(old(mem)[t0][0] != 0 && Uniform(old(mem)[t0], PAGE_SIZE))
      ensures inUse - Pages(mem, root, TOP) == old(inUse) - Pages(old(mem), root, TOP)
      ensures OthersKept(old(mem), mem, old(inUse), Pages(old(mem), root, TOP))
    {
      ghost var m0, used0 := mem, inUse;
      WindowOfPath(m0, root, i2, i1, t1, t0);
      ShrinkWindowEffect(m0, root, i2, i1, t1, t0);
      ShrinkBranch(t1, i1, EntryBytes(1));
      ShrinkWindow(m0, mem, root, i2, i1, t1, t0);
      OthersKeptEdit(m0, mem, used0, Pages(m0, root, TOP), t1, m0[t1][i1 := 0]);
      FreedTable(used0, Pages(m0, root, TOP), t0, AllZero(m0[t0]),
                 AllZero(m0[t0]) || (m0[t0][0] != 0 && Uniform(m0[t0], PAGE_SIZE)), inUse, Pages(mem, root, TOP));
    }

    /** Shrinks the edited window, then twice the 1 GiB entry above it. The tree
        loses the tables that became empty; a window left uniform loses its page
        while the tree still refers to it. */
    method CloseWindow(root: u64, i2: nat, i1: nat, t1: u64, ghost t0: u64)
      requires Valid() && Owns(root) && Window(mem, root, i2, i1, t1, t0)
      modifies this
      ensures Valid() && inUse <= old(inUse)
      ensures Tree(mem, root, TOP)
      ensures SameWalk(old(mem), mem, root, TOP)
      ensures Pages(mem, root, TOP) <= inUse
         <==> !(old(mem)[t0][0] != 0 && Uniform(old(mem)[t0], PAGE_SIZE))
      ensures inUse - Pages(mem, root, TOP) == old(inUse) - Pages(old(mem), root, TOP)
      ensures OthersKept(old(mem), mem, old(inUse), Pages(old(mem), root, TOP))
    {
      ghost var m0, used0 := mem, inUse;
      CloseLast(root, i2, i1, t1, t0);
      ghost var m1, used1 := mem, inUse;
      CloseRoot(root, i2, i1, t1);
      OthersKeptTrans(m0, m1, mem, used0, Pages(m0, root, TOP), used1, Pages(m1, root, TOP));
    }

    /** The shrinks of the 1 GiB entry; the second one finds nothing to do. */
    method CloseRoot(root: u64, i2: nat, i1: nat, ghost t1: u64)
      requires Valid() && HasChild(mem, root, TOP, i2, t1) && i1 < ENTRIES && t1 in inUse
      requires mem[t1][i1] == 0 || IsBranch(mem[t1][i1])
      modifies this
      ensures Valid() && inUse <= old(inUse)
      ensures Tree(mem, root, TOP)
      ensures SameWalk(old(mem), mem, root, TOP)
      ensures Pages(mem, root, TOP) <= inUse <==> Pages(old(mem), root, TOP) <= old(inUse)
      ensures inUse - Pages(mem, root, TOP) == old(inUse) - Pages(old(mem), root, TOP)
      ensures OthersKept(old(mem), mem, old(inUse), Pages(old(mem), root, TOP))
    {
      CloseGiga(root, i2, i1, t1);
      ghost var m2, used2 := mem, inUse;
      if IsBranch(m2[root][i2]) {
        BranchNotNull(m2, root, TOP, i2);
      }
      ShrinkBranch(root, i2, EntryBytes(2));
      assert mem == m2 && inUse == used2;
    }

    method CloseGiga(root: u64, i2: nat, i1: nat, ghost t1: u64)
      requires Valid() && HasChild(mem, root, TOP, i2, t1) && i1 < ENTRIES && t1 in inUse
      requires mem[t1][i1] == 0 || IsBranch(mem[t1][i1])
      modifies this
      ensures Valid() && inUse <= old(inUse)
      ensures Tree(mem, root, TOP)
      ensures SameWalk(old(mem), mem, root, TOP)
      ensures Pages(mem, root, TOP) <= inUse <==> Pages(old(mem), root, TOP) <= old(inUse)
      ensures inUse - Pages(mem, root, TOP) == old(inUse) - Pages(old(mem), root, TOP)
      ensures OthersKept(old(mem), mem, old(inUse), Pages(old(mem), root, TOP))
      ensures Shrunk(mem, root, i2, EntryBytes(2)) == (mem, {})
    {
      ghost var m1, used1 := mem, inUse;
      ShrinkRootEffect(m1, root, i2, i1, t1);
      BranchNotNull(m1, root, TOP, i2);
      ChildFacts(m1, root, TOP, i2);
      ShrinkBranch(root, i2, EntryBytes(2));
      ShrinkRoot(m1, mem, root, i2, i1, t1);
      OthersKeptEdit(m1, mem, used1, Pages(m1, root, TOP), root, m1[root][i2 := 0]);
      UnlinkedTable(used1, Pages(m1, root, TOP), t1, AllZero(m1[t1]), inUse, Pages(mem, root, TOP));
    }

    /** Everything after the request was found to be `count` small pages. */
    method EditWindow(root: u64, first: nat, count: nat, phys: u64, size: u64, flags: Flags) returns (r: Outcome<()>)
      requires Valid() && Owns(root) && Request(first, count, phys, size, flags)
      modifies this
      ensures Valid()
      ensures old(PinnedSuperpage(mem, root, Slot(first, 2), Slot(first, 1))) ==> r.Halt?
      ensures r.Halt? ==>
                old(PinnedSuperpage(mem, root, Slot(first, 2), Slot(first, 1))) || |managed - old(inUse)| < 2
      ensures r.Done? ==> Tree(mem, root, TOP)
      ensures r.Done? ==> Edited(old(mem), mem, root, first, count, FrameOf(phys), flags)
      ensures r.Done? ==>
                (Owns(root) <==> !LeavesUniform(old(mem), root, first, count, FrameOf(phys), flags))
      ensures r.Done? ==> inUse - Pages(mem, root, TOP) == old(inUse) - Pages(old(mem), root, TOP)
      ensures r.Done? ==> OthersKept(old(mem), mem, old(inUse), Pages(old(mem), root, TOP))
      ensures r.Done? ==> |inUse - old(inUse)| <= 2
    {
      ghost var m0, used0 := mem, inUse;
      ghost var frame := FrameOf(phys);
      var path := OpenWindow(root, Slot(first, 2), Slot(first, 1));
      if path.Halt? {
        return Halt;
      }
      var (t1, t0) := path.value;
      ghost var m1, used1 := mem, inUse;
      FillWindow(root, first, count, t1, t0, phys, size, flags);
      ghost var m2 := mem;
      CloseWindow(root, Slot(first, 2), Slot(first, 1), t1, t0);
      EditedBetween(m0, m1, m2, mem, root, first, count, frame, flags);
      OthersKeptTrans(m0, m1, m2, used0, Pages(m0, root, TOP), used1, Pages(m1, root, TOP));
      OthersKeptTrans(m0, m2, mem, used0, Pages(m0, root, TOP), used1, Pages(m2, root, TOP));
      SmallerDifference(inUse, used1, used0);
      r := Done(());
    }

    /** vma_replace_section: afterwards the table translates the pages of the
        request to the requested frames and flags, or to nothing, and every other
        page as before. The tables stay a tree of pages in use, neither leaking
        nor losing one, exactly when the window is not left uniformly mapped; the
        rest of memory is untouched. */
    method ReplaceSection(root: u64, va: u64, size: u64, phys: u64, flags: Flags) returns (r: Outcome<()>)
      requires Valid() && Owns(root)
      requires InWindow(va, size) && RequestFlagsOk(flags) && FramesOk(phys, size, flags)
      modifies this
      ensures Valid()
      ensures OutOfBounds(va, size) ==> r.Halt?
      ensures old(PinnedSuperpage(mem, root, Slot(Normal(va) / PAGE_SIZE, 2), Slot(Normal(va) / PAGE_SIZE, 1))) ==> r.Halt?
      ensures r.Halt? ==>
                || OutOfBounds(va, size)
                || old(PinnedSuperpage(mem, root, Slot(Normal(va) / PAGE_SIZE, 2), Slot(Normal(va) / PAGE_SIZE, 1)))
                || |managed - old(inUse)| < 2
      ensures r.Done? ==> Tree(mem, root, TOP)
      ensures r.Done? ==>
                Edited(old(mem), mem, root, Normal(va) / PAGE_SIZE, size / PAGE_SIZE, FrameOf(phys), flags)
      ensures r.Done? ==>
                (Owns(root) <==>
                 !LeavesUniform(old(mem), root, Normal(va) / PAGE_SIZE, size / PAGE_SIZE, FrameOf(phys), flags))
      ensures r.Done? ==> inUse - Pages(mem, root, TOP) == old(inUse) - Pages(old(mem), root, TOP)
      ensures r.Done? ==> OthersKept(old(mem), mem, old(inUse), Pages(old(mem), root, TOP))
      ensures r.Done? ==> |inUse - old(inUse)| <= 2
      ensures r.Done? ==> Spare() >= old(Spare()) - 2
    {
      var normal := Normal(va);
      if size > SPACE_TOP / 2 {
        return Halt;
      }
      if normal > USER_TOP - size && !IsKernelSpace(va) {
        return Halt;
      }
      if normal > SPACE_TOP - size && IsKernelSpace(va) {
        return Halt;
      }
      RequestBounds(va, size);
      FirstPage(va, size);
      var counts := Splitter.SplitRange(normal, size);
      if counts.Halt? {
        return Halt;
      }
      Splitter.WindowSplit(normal / PAGE_SIZE, size / PAGE_SIZE);
      // only the first phase has work
      assert counts.value == Splitter.Counts(size / PAGE_SIZE, 0, 0, 0, 0);
      r := EditWindow(root, normal / PAGE_SIZE, counts.value.pre0, phys, size, flags);
      if r.Done? {
        StillFree(managed, old(inUse), inUse, 2);
      }
    }
  }
}
