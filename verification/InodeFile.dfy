/**
 Inode files and file descriptors: the pages of a file found and added through
 its radix roots, and the copy loops of file_descriptor.c over them.
 */
module InodeFile {
  import opened Machine
  import opened Sets
  import opened Digits
  import opened RadixTree
  import opened Radix
  import opened FileSpec
  import opened FileStore

  // ---- the empty file ----

  /** The row of a new root: the previous root in slot 0. */
  ghost predicate RootRow(row: seq<nat>, below: nat) {
    |row| == FAN && row[0] == below && forall k :: 0 < k < FAN ==> row[k] == 0
  }

  /** No key of the full depth is stored. */
  ghost predicate Blank(m: Nodes, a: nat, depth: nat) {
    forall es :: |es| == depth ==> Lookup(m, a, es) == 0
  }

  lemma {:induction false} InsertedRow(m: Nodes, n: Nodes, a: nat, v: nat)
    requires IsNode(m, a, FAN) && ZeroRow(m[a], FAN)
    requires IsNode(n, a, FAN) && OneChanged(m, n, a, 1, [0], v)
    ensures RootRow(n[a], v)
  {
    forall k | 0 <= k < FAN
      ensures n[a][k] == if k == 0 then v else 0
    {
      assert [k][1..] == [];
      assert Lookup(n, a, [k]) == n[a][k] && Lookup(m, a, [k]) == m[a][k];
      assert k != 0 ==> [k] != [0];
    }
  }

  lemma FirstRoot(n: Nodes, a: nat)
    requires IsNode(n, a, FAN) && RootRow(n[a], 0)
    ensures Nested(n, [a]) && Blank(n, a, 1) && NodesOf(n, a, 1) == {a}
  {
    EmptyNode(n, a, 1, FAN);
    assert Zeros(0) == [];
    NestedBelow(n, [a], 1);
  }

  /** A root put on top of a tree. */
  lemma PutRoot(m: Nodes, n: Nodes, below: nat, a: nat, depth: nat)
    requires Tree(m, below, depth, FAN) && Blank(m, below, depth)
    requires a !in m && OutsideKept(m, n, {a})
    requires IsNode(n, a, FAN) && RootRow(n[a], below)
    ensures Tree(n, a, depth + 1, FAN) && Blank(n, a, depth + 1)
    ensures NodesOf(n, a, depth + 1) == NodesOf(m, below, depth) + {a}
    ensures forall es :: |es| <= depth ==> Lookup(n, a, [0] + es) == Lookup(m, below, es)
  {
    NodesInMem(m, below, depth, FAN);
    Frame(m, n, below, depth, FAN);
    RootTop(n, below, a, depth, FAN);
    forall es | |es| == depth + 1
      ensures Lookup(n, a, es) == 0
    {
      LookupNull(n, es[1..]);
    }
    forall es | |es| <= depth
      ensures Lookup(n, a, [0] + es) == Lookup(m, below, es)
    {
      assert ([0] + es)[1..] == es;
    }
  }

  lemma RootTop(n: Nodes, below: nat, a: nat, depth: nat, size: nat)
    requires Tree(n, below, depth, size) && a !in NodesOf(n, below, depth)
    requires IsNode(n, a, size) && size > 0 && n[a][0] == below && forall k :: 0 < k < size ==> n[a][k] == 0
    ensures Tree(n, a, depth + 1, size)
    ensures NodesOf(n, a, depth + 1) == NodesOf(n, below, depth) + {a}
  {
    assert Below(n, below, depth + 1) == NodesOf(n, below, depth);
    assert Below(n, 0, depth + 1) == {};
    forall p
      ensures p in NodesOf(n, a, depth + 1) <==> p in NodesOf(n, below, depth) + {a}
    {
      if p in NodesOf(n, below, depth) {
        assert p in Below(n, n[a][0], depth + 1);
      }
    }
  }

  lemma NextRoot(m: Nodes, n: Nodes, roots: seq<nat>, a: nat)
    requires Nested(m, roots) && Blank(m, roots[|roots| - 1], |roots|)
    requires a !in m && OutsideKept(m, n, {a})
    requires IsNode(n, a, FAN) && RootRow(n[a], roots[|roots| - 1])
    ensures Nested(n, roots + [a]) && Blank(n, a, |roots| + 1)
    ensures NodesOf(n, a, |roots| + 1) == NodesOf(m, roots[|roots| - 1], |roots|) + {a}
  {
    var below, all := roots[|roots| - 1], roots + [a];
    assert RootOk(m, roots, |roots| - 1);
    PutRoot(m, n, below, a, |roots|);
    forall j | 0 <= j < |all|
      ensures AlongZeros(n, all, j)
    {
      NextAlong(m, n, roots, a, j);
    }
    NestedBelow(n, all, |all|);
  }

  lemma NextAlong(m: Nodes, n: Nodes, roots: seq<nat>, a: nat, j: nat)
    requires Nested(m, roots) && a != 0 && j <= |roots|
    requires forall es :: |es| <= |roots| ==> Lookup(n, a, [0] + es) == Lookup(m, roots[|roots| - 1], es)
    ensures AlongZeros(n, roots + [a], j)
  {
    if j < |roots| {
      assert RootOk(m, roots, j);
      ZerosMore(|roots| - 1 - j);
    } else {
      assert Zeros(0) == [];
    }
  }

  lemma ZerosMore(k: nat)
    ensures Zeros(k + 1) == [0] + Zeros(k)
  {
  }

  // ---- pages ----

  lemma PageDigits(x: nat, y: nat)
    requires x < PAGE_NUMBERS && y < PAGE_NUMBERS
    ensures DigitsOf(x, ROOTS, BITS) == DigitsOf(y, ROOTS, BITS) <==> x == y
  {
    Pow53();
    PowMonotone(53, ROOTS * BITS);
    if DigitsOf(x, ROOTS, BITS) == DigitsOf(y, ROOTS, BITS) {
      DigitsInjective(x, y, ROOTS, BITS);
    }
  }

  /** A page number that is stored nowhere becomes a new page's. */
  ghost predicate OneAdded(m: Nodes, n: Nodes, top: nat, pages: Pages, page: nat, v: nat) {
    && page < PAGE_NUMBERS && PageAddr(m, top, page) == 0 && v != 0 && v !in pages
    && forall x: nat :: x < PAGE_NUMBERS ==> PageAddr(n, top, x) == if x == page then v else PageAddr(m, top, x)
  }

  lemma AddedHolds(m: Nodes, n: Nodes, top: nat, pages: Pages, page: nat, v: nat)
    requires Holds(m, top, pages) && OneAdded(m, n, top, pages, page, v)
    ensures Holds(n, top, pages[v := ZeroPage()])
  {
    var after := pages[v := ZeroPage()];
    forall x | 0 <= x < PAGE_NUMBERS
      ensures PageKept(n, top, after, x)
    {
      assert PageKept(m, top, pages, x);
    }
    forall x, y | 0 <= x < PAGE_NUMBERS && 0 <= y < PAGE_NUMBERS
      ensures OwnPage(n, top, x, y)
    {
      assert OwnPage(m, top, x, y) && PageKept(m, top, pages, x) && PageKept(m, top, pages, y);
    }
  }

  lemma AddedView(m: Nodes, n: Nodes, top: nat, pages: Pages, page: nat, v: nat)
    requires Holds(m, top, pages) && OneAdded(m, n, top, pages, page, v)
    ensures ViewOf(n, top, pages[v := ZeroPage()]) == ViewOf(m, top, pages)[page := ZeroPage()]
  {
    var after := pages[v := ZeroPage()];
    forall x | 0 <= x < PAGE_NUMBERS
      ensures HasPage(n, top, after, x) <==> x == page || HasPage(m, top, pages, x)
    {
      assert PageKept(m, top, pages, x);
    }
  }

  /** Adding a new page adds exactly it to the file. */
  lemma AddedPage(m: Nodes, n: Nodes, top: nat, pages: Pages, page: nat, v: nat)
    requires page < PAGE_NUMBERS && PageAddr(m, top, page) == 0 && v != 0 && v !in pages
    requires OneChanged(m, n, top, ROOTS, DigitsOf(page, ROOTS, BITS), v)
    ensures OneAdded(m, n, top, pages, page, v)
  {
    forall x: nat | x < PAGE_NUMBERS
      ensures PageAddr(n, top, x) == if x == page then v else PageAddr(m, top, x)
    {
      PageDigits(x, page);
    }
  }

  /** Overwriting one page changes exactly it. */
  lemma ChangedPage(m: Nodes, top: nat, pages: Pages, page: nat, row: seq<u8>)
    requires Holds(m, top, pages) && page < PAGE_NUMBERS && PageAddr(m, top, page) != 0
    requires |row| == PAGE_SIZE
    ensures Holds(m, top, pages[PageAddr(m, top, page) := row])
    ensures ViewOf(m, top, pages[PageAddr(m, top, page) := row]) == ViewOf(m, top, pages)[page := row]
  {
    var after := pages[PageAddr(m, top, page) := row];
    forall x | 0 <= x < PAGE_NUMBERS
      ensures PageKept(m, top, after, x)
      ensures HasPage(m, top, after, x) <==> HasPage(m, top, pages, x)
      ensures PageAddr(m, top, x) != PageAddr(m, top, page) || x == page
    {
      assert PageKept(m, top, pages, x) && OwnPage(m, top, page, x);
    }
    assert PageKept(m, top, pages, page);
  }

  /** What the contents say about one page. */
  lemma ViewAt(m: Nodes, top: nat, pages: Pages, x: nat)
    requires Holds(m, top, pages) && x < PAGE_NUMBERS
    ensures x in ViewOf(m, top, pages) <==> PageAddr(m, top, x) != 0
    ensures PageAddr(m, top, x) != 0 ==>
              && PageAddr(m, top, x) in pages && |pages[PageAddr(m, top, x)]| == PAGE_SIZE
              && ViewOf(m, top, pages)[x] == pages[PageAddr(m, top, x)]
  {
    assert PageKept(m, top, pages, x);
  }

  lemma ViewFull(m: Nodes, top: nat, pages: Pages)
    requires Holds(m, top, pages)
    ensures FullPages(ViewOf(m, top, pages))
  {
    forall x | x in ViewOf(m, top, pages)
      ensures |ViewOf(m, top, pages)[x]| == PAGE_SIZE
    {
      ViewAt(m, top, pages, x);
    }
  }

  lemma BlankView(m: Nodes, top: nat, pages: Pages)
    requires Blank(m, top, ROOTS)
    ensures Holds(m, top, pages) && ViewOf(m, top, pages) == map[]
    ensures NoPages(m, top)
  {
  }

  lemma SpliceMore(row: seq<u8>, at: nat, bytes: seq<u8>, i: nat)
    requires i < |bytes| && at + |bytes| <= |row|
    ensures Splice(row, at, bytes[..i])[at + i := bytes[i]] == Splice(row, at, bytes[..i + 1])
  {
  }

  lemma SliceMore(row: seq<u8>, at: nat, i: nat)
    requires at + i < |row|
    ensures row[at..at + i] + [row[at + i]] == row[at..at + i + 1]
  {
  }

  lemma AddedKept(m: Nodes, n: Nodes, top: nat, pages: Pages, page: nat, v: nat)
    requires OneAdded(m, n, top, pages, page, v)
    ensures PagesKept(m, n, top, pages, pages[v := ZeroPage()])
  {
    forall x | 0 <= x < PAGE_NUMBERS
      ensures OwnOrNew(m, n, top, pages, x)
    {
    }
  }

  lemma ChangedKept(m: Nodes, roots: seq<nat>, pages: Pages, page: nat, row: seq<u8>)
    requires |roots| == ROOTS && page < PAGE_NUMBERS && PageAddr(m, roots[ROOTS - 1], page) != 0
    ensures FileStep(m, m, roots, pages, pages[PageAddr(m, roots[ROOTS - 1], page) := row])
  {
    FileSame(m, roots);
    assert Addressed(m, roots[ROOTS - 1], PageAddr(m, roots[ROOTS - 1], page));
  }

  /** The pages that files keep their bytes in. */
  class PageStore {
    var pages: Pages

    constructor ()
      ensures pages == map[]
    {
      pages := map[];
    }
  }

  class Inode {
    const heap: NodeHeap
    var roots: seq<nat>
    const store: PageStore
    var size: u64

    ghost predicate Valid()
      reads this, heap, store
    {
      File(heap.nodes, roots, store.pages)
    }

    /** The file's contents, page by page. */
    ghost function Contents(): (v: View)
      requires Valid()
      reads this, heap, store
      ensures FullPages(v)
    {
      ViewFull(heap.nodes, roots[ROOTS - 1], store.pages);
      ViewOf(heap.nodes, roots[ROOTS - 1], store.pages)
    }

    /** Where a page of the file is. */
    ghost function Place(page: nat): nat
      requires Valid()
      reads this, heap, store
    {
      PageAddr(heap.nodes, roots[ROOTS - 1], page)
    }

    /** create_blank_inode_file: sixteen nested roots and no page. */
    constructor (heap: NodeHeap, store: PageStore)
      modifies heap
      ensures this.heap == heap && this.store == store
      ensures Valid() && Contents() == map[] && size == 0
      ensures OutsideKept(old(heap.nodes), heap.nodes, {})
      ensures NodesOf(heap.nodes, roots[ROOTS - 1], ROOTS) !! old(heap.nodes).Keys
      ensures NoPages(heap.nodes, roots[ROOTS - 1])
    {
      this.heap, this.store := heap, store;
      size := 0;
      roots := [];
      new;
      FanOut();
      var current := 0;
      for i := 0 to ROOTS
        invariant |roots| == i && current == (if i == 0 then 0 else roots[i - 1])
        invariant i > 0 ==> Nested(heap.nodes, roots) && Blank(heap.nodes, roots[i - 1], i)
        invariant this.heap == heap && this.store == store && size == 0
        invariant OutsideKept(old(heap.nodes), heap.nodes, {})
        invariant i > 0 ==> NodesOf(heap.nodes, roots[i - 1], i) !! old(heap.nodes).Keys
      {
        ghost var before := heap.nodes;
        var made := AddRoot(current);
        if i == 0 {
          FirstRoot(heap.nodes, made);
        } else {
          NextRoot(before, heap.nodes, roots, made);
        }
        current := made;
        roots := roots + [current];
      }
      BlankView(heap.nodes, roots[ROOTS - 1], store.pages);
    }

    /** One iteration of the loop that builds the roots. */
    method AddRoot(below: nat) returns (made: nat)
      modifies heap
      ensures made !in old(heap.nodes) && OutsideKept(old(heap.nodes), heap.nodes, {made})
      ensures IsNode(heap.nodes, made, FAN) && RootRow(heap.nodes[made], below)
    {
      FanOut();
      var root := heap.Create(BITS);
      made := root.value;
      ghost var before := heap.nodes;
      EmptyNode(heap.nodes, made, 1, FAN);
      var held := heap.Insert(made, 0, below, 1, BITS);
      FirstKey();
      InsertedRow(before, heap.nodes, made, below);
    }

    /** find_page_start: the address of the page that holds `offset`, added if it
        is missing and the offset is not below the file's size. The rest of the heap
        is left alone. */
    method FindPage(offset: u64) returns (r: Outcome<nat>)
      requires Valid()
      modifies store, heap
      ensures r.Halt? <==> Touch(old(Contents()), offset, size).Halt?
      ensures r.Done? ==>
                && Valid() && Contents() == Touch(old(Contents()), offset, size).value
                && r.value == Place(offset / PAGE_SIZE) && r.value != 0
      ensures FileStep(old(heap.nodes), heap.nodes, roots, old(store.pages), store.pages)
      ensures offset < size ==> heap.nodes == old(heap.nodes) && store.pages == old(store.pages)
    {
      var page := offset / PAGE_SIZE;
      var level := RadixLevel(page);
      LevelCovers(offset);
      var found := GetPage(page, level);
      ViewAt(heap.nodes, roots[ROOTS - 1], store.pages, page);
      FileStepSame(heap.nodes, roots, store.pages);
      if found != 0 {
        return Done(found);
      }
      if offset < size {
        return Halt;
      }
      r := AddPage(page, level);
    }

    /** radix_get in the root for the page. */
    method GetPage(page: nat, level: nat) returns (found: nat)
      requires Valid() && level <= 13 && page < Pow2((level + 1) * BITS)
      ensures found == Place(page)
    {
      FanOut();
      RootTree(heap.nodes, roots, level);
      RootsAgree(heap.nodes, roots, level, page);
      found := heap.Get(roots[level], page, level + 1, BITS);
    }

    /** radix_insert with the file's four bits per level. */
    method InsertPage(root: nat, page: nat, v: nat, depth: nat)
      requires Tree(heap.nodes, root, depth, FAN) && depth <= 14 && page < Pow2(depth * BITS)
      modifies heap
      ensures Tree(heap.nodes, root, depth, FAN) && Grown(old(heap.nodes), heap.nodes, root, depth)
      ensures OneChanged(old(heap.nodes), heap.nodes, root, depth, DigitsOf(page, depth, BITS), v)
    {
      FanOut();
      assert depth * BITS == BITS * depth;
      var held := heap.Insert(root, page, v, depth, BITS);
    }

    /** The page allocation and insertion of find_page_start. */
    method AddPage(page: nat, level: nat) returns (r: Outcome<nat>)
      requires Valid() && level <= 13 && page < Pow2((level + 1) * BITS) && page < PAGE_NUMBERS
      requires Place(page) == 0
      modifies store, heap
      ensures r.Done? && Valid() && Contents() == old(Contents())[page := ZeroPage()]
      ensures r.value == Place(page) && r.value != 0
      ensures FileStep(old(heap.nodes), heap.nodes, roots, old(store.pages), store.pages)
    {
      ghost var m, top := heap.nodes, roots[ROOTS - 1];
      ghost var pages := store.pages;
      FreshAddress(store.pages.Keys);
      var taken: nat :| taken != 0 && taken !in store.pages;
      RootTree(heap.nodes, roots, level);
      InsertPage(roots[level], page, taken, level + 1);
      InsertIntoRoot(m, heap.nodes, roots, level, page, taken);
      AddedPage(m, heap.nodes, top, pages, page, taken);
      AddedHolds(m, heap.nodes, top, pages, page, taken);
      AddedView(m, heap.nodes, top, pages, page, taken);
      AddedKept(m, heap.nodes, top, pages, page, taken);
      store.pages := store.pages[taken := ZeroPage()];
      r := Done(taken);
    }
  }

  // ---- descriptors ----

  class FileDescriptor {
    const file: Inode
    var seek: u64

    ghost predicate Valid()
      reads this, file, file.heap, file.store
    {
      file.Valid()
    }

    /** file_descriptor_open */
    constructor (file: Inode)
      ensures this.file == file && seek == 0
    {
      this.file := file;
      seek := 0;
    }

    /** file_descriptor_seek */
    method Seek(pos: u64)
      modifies this
      ensures seek == pos
    {
      seek := pos;
    }

    /** The inner loop of a write: bytes into one page, one at a time. */
    method CopyIn(page: nat, offset: u64, bytes: seq<u8>)
      requires file.Valid() && offset % PAGE_SIZE + |bytes| <= PAGE_SIZE
      requires page == file.Place(offset / PAGE_SIZE) && page != 0
      modifies file.store
      ensures file.Valid() && file.Contents() == Put(old(file.Contents()), offset / PAGE_SIZE, offset % PAGE_SIZE, bytes)
      ensures FileStep(file.heap.nodes, file.heap.nodes, file.roots, old(file.store.pages), file.store.pages)
    {
      ghost var v := file.Contents();
      ghost var pages := file.store.pages;
      ViewAt(file.heap.nodes, file.roots[ROOTS - 1], pages, offset / PAGE_SIZE);
      ghost var row := pages[page];
      var at := offset;
      assert Splice(row, offset % PAGE_SIZE, bytes[..0]) == row;
      assert pages[page := row] == pages;
      for i := 0 to |bytes|
        invariant at == Add64(offset, i)
        invariant file.store.pages == pages[page := Splice(row, offset % PAGE_SIZE, bytes[..i])]
      {
        NextByte(offset, i);
        SpliceMore(row, offset % PAGE_SIZE, bytes, i);
        file.store.pages := file.store.pages[page := StoreByte(file.store.pages[page], at % PAGE_SIZE, bytes[i])];
        at := Add64(at, 1);
      }
      assert bytes[..|bytes|] == bytes;
      ChangedPage(file.heap.nodes, file.roots[ROOTS - 1], pages, offset / PAGE_SIZE, file.store.pages[page]);
      ChangedKept(file.heap.nodes, file.roots, pages, offset / PAGE_SIZE, file.store.pages[page]);
    }

    /** file_descriptor_write: the file and the seek position are as FileSpec.Step
        says, it halts exactly when that does, and the heap changes only where the
        file's own nodes are. */
    method Write(bytes: seq<u8>) returns (r: Outcome<u64>)
      requires Valid() && |bytes| < TWO_TO_64
      modifies this, file, file.store, file.heap
      ensures r.Halt? <==> WriteRun(old(file.Contents()), old(seek), bytes, old(file.size)).Halt?
      ensures r.Done? ==>
                && Valid() && r.value == |bytes|
                && Done(file.Contents()) == WriteRun(old(file.Contents()), old(seek), bytes, old(file.size))
                && seek == Add64(old(seek), |bytes|)
                && file.size == Max(old(file.size), Add64(|bytes|, seek))
      ensures r.Done? ==> FileStep(old(file.heap.nodes), file.heap.nodes, file.roots, old(file.store.pages), file.store.pages)
    {
      r := CopyAllIn(bytes);
      if r.Halt? {
        return;
      }
      seek := r.value;
      file.size := Max(file.size, Add64(|bytes|, seek));
      r := Done(|bytes|);
    }

    /** A write in progress: what is left to do ends as the whole run does. */
    ghost predicate Copying(m: Nodes, pages: Pages, end: Outcome<View>, bytes: seq<u8>, done: nat, offset: u64)
      reads this, file, file.heap, file.store
    {
      && file.Valid() && done <= |bytes| < TWO_TO_64 && offset == Add64(seek, done)
      && FileStep(m, file.heap.nodes, file.roots, pages, file.store.pages)
      && WriteRun(file.Contents(), offset, bytes[done..], file.size) == end
    }

    /** The loop of a write: the offset it ends at. */
    method CopyAllIn(bytes: seq<u8>) returns (r: Outcome<u64>)
      requires file.Valid() && |bytes| < TWO_TO_64
      modifies file.store, file.heap
      ensures r.Halt? <==> WriteRun(old(file.Contents()), seek, bytes, file.size).Halt?
      ensures r.Done? ==>
                && file.Valid() && r.value == Add64(seek, |bytes|)
                && FileStep(old(file.heap.nodes), file.heap.nodes, file.roots, old(file.store.pages), file.store.pages)
                && Done(file.Contents()) == WriteRun(old(file.Contents()), seek, bytes, file.size)
    {
      ghost var m, pages := file.heap.nodes, file.store.pages;
      ghost var end := WriteRun(file.Contents(), seek, bytes, file.size);
      StartCopying(bytes);
      r := CopyRest(bytes, m, pages, end);
    }

    lemma StartCopying(bytes: seq<u8>)
      requires file.Valid() && |bytes| < TWO_TO_64
      ensures Copying(file.heap.nodes, file.store.pages, WriteRun(file.Contents(), seek, bytes, file.size), bytes, 0, seek)
    {
      FileStepSame(file.heap.nodes, file.roots, file.store.pages);
      AddNothing(seek);
      assert bytes[0..] == bytes;
    }

    lemma StopCopying(m: Nodes, pages: Pages, end: Outcome<View>, bytes: seq<u8>, done: nat, offset: u64)
      requires Copying(m, pages, end, bytes, done, offset) && done == |bytes|
      ensures end == Done(file.Contents())
    {
      assert bytes[done..] == [];
    }

    method CopyRest(bytes: seq<u8>, ghost m: Nodes, ghost pages: Pages, ghost end: Outcome<View>) returns (r: Outcome<u64>)
      requires Copying(m, pages, end, bytes, 0, seek)
      modifies file.store, file.heap
      ensures r.Halt? ==> end.Halt?
      ensures r.Done? ==>
                && file.Valid() && |bytes| < TWO_TO_64 && r.value == Add64(seek, |bytes|)
                && FileStep(m, file.heap.nodes, file.roots, pages, file.store.pages) && end == Done(file.Contents())
    {
      var offset: u64, done: nat := seek, 0;
      while done < |bytes|
        invariant done <= |bytes| && Copying(m, pages, end, bytes, done, offset)
      {
        r, done := WriteChunk(offset, bytes, done, m, pages, end);
        if r.Halt? {
          return;
        }
        offset := r.value;
      }
      StopCopying(m, pages, end, bytes, done, offset);
      r := Done(offset);
    }

    /** One iteration of a write: the next offset and how many bytes are copied.
        What is left to do is the rest of the same run. */
    method WriteChunk(offset: u64, bytes: seq<u8>, done: nat, ghost m: Nodes, ghost pages: Pages, ghost end: Outcome<View>)
      returns (r: Outcome<u64>, copied: nat)
      requires Copying(m, pages, end, bytes, done, offset) && done < |bytes|
      modifies file.store, file.heap
      ensures done < copied <= |bytes|
      ensures r.Halt? ==> end.Halt?
      ensures r.Done? ==> Copying(m, pages, end, bytes, copied, r.value)
    {
      var next := Add64(offset, Chunk(offset, |bytes| - done));
      copied := done + Chunk(offset, |bytes| - done);
      ghost var rest := WriteStep(file.Contents(), seek, offset, bytes, done, copied, next, file.size);
      var page := PutChunk(offset, bytes[done..copied]);
      FileStepTrans(m, old(file.heap.nodes), file.heap.nodes, file.roots, pages, old(file.store.pages), file.store.pages);
      r := if page.Halt? then Halt else Done(next);
    }

    /** One page of a write. */
    method PutChunk(offset: u64, bytes: seq<u8>) returns (r: Outcome<nat>)
      requires file.Valid() && offset % PAGE_SIZE + |bytes| <= PAGE_SIZE
      modifies file.store, file.heap
      ensures r.Halt? <==> Touch(old(file.Contents()), offset, file.size).Halt?
      ensures r.Done? ==> file.Valid() && file.Contents() == AfterChunk(old(file.Contents()), offset, bytes, file.size)
      ensures FileStep(old(file.heap.nodes), file.heap.nodes, file.roots, old(file.store.pages), file.store.pages)
    {
      r := file.FindPage(offset);
      if r.Done? {
        ghost var m, pages := file.heap.nodes, file.store.pages;
        CopyIn(r.value, offset, bytes);
        FileStepTrans(old(file.heap.nodes), m, m, file.roots, old(file.store.pages), pages, file.store.pages);
      }
    }

    /** The inner loop of a read. */
    method CopyOut(page: nat, offset: u64, count: nat) returns (out: seq<u8>)
      requires file.Valid() && offset % PAGE_SIZE + count <= PAGE_SIZE
      requires page == file.Place(offset / PAGE_SIZE) && page != 0
      ensures out == Cut(file.Contents(), offset / PAGE_SIZE, offset % PAGE_SIZE, count)
    {
      ViewAt(file.heap.nodes, file.roots[ROOTS - 1], file.store.pages, offset / PAGE_SIZE);
      ghost var row := file.store.pages[page];
      var at := offset;
      out := [];
      for i := 0 to count
        invariant at == Add64(offset, i)
        invariant out == row[offset % PAGE_SIZE..offset % PAGE_SIZE + i]
      {
        NextByte(offset, i);
        SliceMore(row, offset % PAGE_SIZE, i);
        out := out + [file.store.pages[page][at % PAGE_SIZE]];
        at := Add64(at, 1);
      }
    }

    /** file_descriptor_read: the bytes and the seek position are as FileSpec.Step
        says, neither the file nor the heap is changed, and it halts exactly when that
        does. */
    method Read(count: u64) returns (r: Outcome<seq<u8>>)
      requires Valid()
      modifies this, file.store, file.heap
      ensures r == ReadRun(old(file.Contents()), old(seek), ReadSize(file.size, old(seek), count))
      ensures r.Done? ==>
                && Valid() && file.Contents() == old(file.Contents())
                && seek == Add64(old(seek), ReadSize(file.size, old(seek), count))
      ensures file.heap.nodes == old(file.heap.nodes) && file.store.pages == old(file.store.pages)
    {
      var readSize := Min(count, Sub64(file.size, seek));
      SizeLeft(file.size, seek, count);
      if seek > file.size {
        return Done([]);
      }
      if readSize == 0 {
        return Done([]);
      }
      r := CopyAllOut(readSize);
      if r.Halt? {
        ReadHalts(old(file.Contents()), seek, readSize);
        return;
      }
      CopiedIsRead(file.Contents(), seek, r.value);
      seek := Add64(seek, readSize);
    }

    /** The loop of a read. */
    method CopyAllOut(readSize: nat) returns (r: Outcome<seq<u8>>)
      requires file.Valid() && seek + readSize <= file.size
      modifies file.store, file.heap
      ensures r.Halt? ==> Missing(old(file.Contents()), seek, readSize)
      ensures r.Done? ==>
                && file.Valid() && file.Contents() == old(file.Contents())
                && |r.value| == readSize && Copied(file.Contents(), seek, r.value)
      ensures file.heap.nodes == old(file.heap.nodes) && file.store.pages == old(file.store.pages)
    {
      var left: nat, offset: u64, out: seq<u8> := readSize, seek, [];
      while left > 0
        invariant file.Valid() && file.Contents() == old(file.Contents())
        invariant file.heap.nodes == old(file.heap.nodes) && file.store.pages == old(file.store.pages)
        invariant offset == seek + |out| && |out| + left == readSize
        invariant Copied(file.Contents(), seek, out)
      {
        var more := ReadChunk(offset, left);
        if more.Halt? {
          MissingAt(old(file.Contents()), seek, |out|, offset, readSize);
          return Halt;
        }
        CopiedMore(file.Contents(), seek, out, offset, more.value);
        AddPlain(offset, |more.value|);
        left, offset, out := left - |more.value|, Add64(offset, |more.value|), out + more.value;
      }
      r := Done(out);
    }

    /** One iteration of a read, below the file's size: the bytes it copied. */
    method ReadChunk(offset: u64, left: nat) returns (r: Outcome<seq<u8>>)
      requires file.Valid() && offset < file.size && left > 0
      modifies file.store, file.heap
      ensures r.Halt? <==> offset / PAGE_SIZE !in old(file.Contents())
      ensures r.Done? ==>
                && file.Valid() && file.Contents() == old(file.Contents())
                && 0 < |r.value| <= left && Copied(file.Contents(), offset, r.value)
      ensures file.heap.nodes == old(file.heap.nodes) && file.store.pages == old(file.store.pages)
    {
      var n := Chunk(offset, left);
      var page := file.FindPage(offset);
      if page.Halt? {
        return Halt;
      }
      var bytes := CopyOut(page.value, offset, n);
      CutCopied(file.Contents(), offset, n);
      r := Done(bytes);
    }
  }

  /** The file has a page for the offset, and this byte there. */
  ghost predicate InFile(v: View, o: nat, b: u8) {
    o < TWO_TO_64 && o / PAGE_SIZE in v && ByteAt(v, o) == b
  }

  ghost predicate Copied(v: View, offset: u64, out: seq<u8>) {
    forall i :: 0 <= i < |out| ==> InFile(v, offset + i, out[i])
  }

  lemma CutCopied(v: View, offset: u64, n: nat)
    requires FullPages(v) && offset / PAGE_SIZE in v && offset % PAGE_SIZE + n <= PAGE_SIZE
    ensures |Cut(v, offset / PAGE_SIZE, offset % PAGE_SIZE, n)| == n
    ensures Copied(v, offset, Cut(v, offset / PAGE_SIZE, offset % PAGE_SIZE, n))
  {
    var out := Cut(v, offset / PAGE_SIZE, offset % PAGE_SIZE, n);
    forall i | 0 <= i < n
      ensures InFile(v, offset + i, out[i])
    {
      PageEnd(offset, i);
    }
  }

  lemma NextByte(offset: u64, i: nat)
    requires offset % PAGE_SIZE + i < PAGE_SIZE
    ensures Add64(offset, i) % PAGE_SIZE == offset % PAGE_SIZE + i
    ensures Add64(Add64(offset, i), 1) == Add64(offset, i + 1)
  {
    PageEnd(offset, i);
  }

  lemma PageEnd(offset: u64, i: nat)
    requires offset % PAGE_SIZE + i < PAGE_SIZE
    ensures offset + i < TWO_TO_64
    ensures (offset + i) / PAGE_SIZE == offset / PAGE_SIZE && (offset + i) % PAGE_SIZE == offset % PAGE_SIZE + i
  {
  }

  lemma CopiedMore(v: View, offset: u64, out: seq<u8>, next: u64, more: seq<u8>)
    requires next == offset + |out| && Copied(v, offset, out) && Copied(v, next, more)
    ensures Copied(v, offset, out + more)
  {
    forall i | 0 <= i < |out + more|
      ensures InFile(v, offset + i, (out + more)[i])
    {
      if i >= |out| {
        assert InFile(v, next + (i - |out|), more[i - |out|]);
      }
    }
  }

  /** Bytes copied from existing pages are what ReadRun returns. */
  lemma CopiedIsRead(v: View, offset: u64, out: seq<u8>)
    requires FullPages(v) && offset + |out| < TWO_TO_64 && Copied(v, offset, out)
    ensures ReadRun(v, offset, |out|) == Done(out)
  {
    ReadHalts(v, offset, |out|);
    forall i: nat | i < |out|
      ensures At(offset, i) / PAGE_SIZE in v && ByteAt(v, At(offset, i)) == out[i]
    {
      NoWrap(offset, i);
      assert InFile(v, offset + i, out[i]);
    }
    ReadReturns(v, offset, |out|);
    assert ReadRun(v, offset, |out|).value == out;
  }

  lemma MissingAt(v: View, seek: u64, i: nat, offset: u64, count: nat)
    requires i < count && offset == seek + i && offset / PAGE_SIZE !in v
    ensures Missing(v, seek, count)
  {
    NoWrap(seek, i);
    assert At(seek, i) / PAGE_SIZE !in v;
  }

  /** The file after one chunk of a write. */
  ghost function AfterChunk(v: View, offset: u64, bytes: seq<u8>, size: u64): View
    requires Touch(v, offset, size).Done?
  {
    Put(Touch(v, offset, size).value, offset / PAGE_SIZE, offset % PAGE_SIZE, bytes)
  }

  /** One step of WriteRun. */
  lemma WriteStep(v: View, seek: u64, offset: u64, bytes: seq<u8>, done: nat, copied: nat, next: u64, size: u64) returns (end: Outcome<View>)
    requires done < |bytes| < TWO_TO_64 && offset == Add64(seek, done)
    requires copied == done + Chunk(offset, |bytes| - done) && next == Add64(offset, Chunk(offset, |bytes| - done))
    ensures done < copied <= |bytes| && next == Add64(seek, copied)
    ensures offset % PAGE_SIZE + |bytes[done..copied]| <= PAGE_SIZE
    ensures end == WriteRun(v, offset, bytes[done..], size)
    ensures Touch(v, offset, size).Halt? ==> end.Halt?
    ensures Touch(v, offset, size).Done? ==>
              end == WriteRun(AfterChunk(v, offset, bytes[done..copied], size), next, bytes[copied..], size)
  {
    AddTwice(seek, done, copied - done);
    end := WriteRun(v, offset, bytes[done..], size);
    assert bytes[done..][..copied - done] == bytes[done..copied] && bytes[done..][copied - done..] == bytes[copied..];
  }

  function StoreByte(row: seq<u8>, i: nat, b: u8): seq<u8>
    requires i < |row|
  {
    row[i := b]
  }

  lemma AddNothing(x: u64)
    ensures Add64(x, 0) == x
  {
  }

  lemma AddTwice(x: u64, a: nat, b: nat)
    requires a + b < TWO_TO_64
    ensures Add64(Add64(x, a), b) == Add64(x, a + b)
  {
  }

  lemma AddPlain(x: u64, n: nat)
    requires x + n < TWO_TO_64
    ensures Add64(x, n) == x + n
  {
  }

  /** The bound of a read, where the subtraction wraps before the test. */
  lemma SizeLeft(size: u64, seek: u64, count: u64)
    ensures seek <= size ==> Min(count, Sub64(size, seek)) == ReadSize(size, seek, count)
    ensures seek <= size ==> seek + ReadSize(size, seek, count) <= size
    ensures Add64(seek, 0) == seek
  {
  }

  lemma FirstKey()
    ensures DigitsOf(0, 1, BITS) == [0] && Pow2(BITS * 1) > 0
  {
    ShrOfZero(BITS);
    ShrOfZero(0);
  }

  /** Each root is the root of a tree. */
  lemma RootTree(m: Nodes, roots: seq<nat>, level: nat)
    requires Chain(m, roots) && level < ROOTS
    ensures Tree(m, roots[level], level + 1, FAN)
  {
    assert RootOk(m, roots, level);
  }
}
