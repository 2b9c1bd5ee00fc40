/**
 The sixteen nested radix roots of an inode file as one tree: root `i` is slot 0
 of root `i + 1`, so a page number means the same in every root deep enough.
 */
module FileStore {
  import opened Machine
  import opened Digits
  import opened RadixTree
  import opened Radix
  import opened FileSpec

  const BITS := 4
  const FAN := 16
  const ROOTS := 16

  type Pages = map<nat, seq<u8>>

  lemma FanOut()
    ensures Pow2(BITS) == FAN
  {
    assert Pow2(4) == 2 * Pow2(3) && Pow2(3) == 2 * Pow2(2) && Pow2(2) == 2 * Pow2(1) && Pow2(1) == 2 * Pow2(0);
  }

  ghost function Zeros(n: nat): (zs: seq<nat>)
    ensures |zs| == n && forall i :: 0 <= i < n ==> zs[i] == 0
  {
    seq(n, i => 0)
  }

  /** Root `j` heads a tree of its depth and lies below the last root along the
      slots numbered 0. */
  ghost predicate RootOk(m: Nodes, roots: seq<nat>, j: nat)
    requires j < |roots|
  {
    Tree(m, roots[j], j + 1, FAN) && AlongZeros(m, roots, j)
  }

  ghost predicate AlongZeros(m: Nodes, roots: seq<nat>, j: nat)
    requires j < |roots|
  {
    roots[j] != 0 && Lookup(m, roots[|roots| - 1], Zeros(|roots| - 1 - j)) == roots[j]
  }

  ghost predicate Nested(m: Nodes, roots: seq<nat>) {
    roots != [] && forall j :: 0 <= j < |roots| ==> RootOk(m, roots, j)
  }

  ghost predicate Chain(m: Nodes, roots: seq<nat>) {
    |roots| == ROOTS && Nested(m, roots)
  }

  /** It is enough that the last root heads a tree. */
  lemma NestedBelow(m: Nodes, roots: seq<nat>, depth: nat)
    requires |roots| == depth > 0 && Tree(m, roots[depth - 1], depth, FAN)
    requires forall j :: 0 <= j < depth ==> AlongZeros(m, roots, j)
    ensures Nested(m, roots)
  {
    forall j | 0 <= j < depth
      ensures RootOk(m, roots, j)
    {
      assert AlongZeros(m, roots, j);
      SubTree(m, roots[depth - 1], depth, FAN, Zeros(depth - 1 - j), j + 1);
    }
  }

  /** Where the page numbered `x` is. */
  ghost function PageAddr(m: Nodes, top: nat, x: nat): nat {
    Lookup(m, top, DigitsOf(x, ROOTS, BITS))
  }

  const PAGE_NUMBERS := 0x10_0000_0000_0000

  /** What is stored for a page number is a page. */
  ghost predicate PageKept(m: Nodes, top: nat, pages: Pages, x: nat) {
    var a := PageAddr(m, top, x);
    a != 0 ==> a in pages && |pages[a]| == PAGE_SIZE
  }

  ghost predicate OwnPage(m: Nodes, top: nat, x: nat, y: nat) {
    PageAddr(m, top, x) != 0 && PageAddr(m, top, x) == PageAddr(m, top, y) ==> x == y
  }

  /** Stored values are pages, and no two page numbers share one. */
  ghost predicate Holds(m: Nodes, top: nat, pages: Pages) {
    && (forall x :: 0 <= x < PAGE_NUMBERS ==> PageKept(m, top, pages, x))
    && (forall x, y :: 0 <= x < PAGE_NUMBERS && 0 <= y < PAGE_NUMBERS ==> OwnPage(m, top, x, y))
  }

  ghost predicate HasPage(m: Nodes, top: nat, pages: Pages, x: nat) {
    PageAddr(m, top, x) != 0 && PageAddr(m, top, x) in pages
  }

  /** The file's contents. */
  ghost function ViewOf(m: Nodes, top: nat, pages: Pages): View {
    map x | 0 <= x < PAGE_NUMBERS && HasPage(m, top, pages, x) :: pages[PageAddr(m, top, x)]
  }

  // ---- page numbers in short and long roots ----

  /** Digits in a root are the digits in the top root without leading zeros. */
  lemma {:induction false} LongDigits(n: nat, depth: nat)
    requires 0 < depth <= ROOTS && n < Pow2(depth * BITS)
    ensures DigitsOf(n, ROOTS, BITS) == Zeros(ROOTS - depth) + DigitsOf(n, depth, BITS)
    decreases ROOTS - depth
  {
    if depth < ROOTS {
      PowMonotone(depth * BITS, (depth + 1) * BITS);
      LongDigits(n, depth + 1);
      DigitsPad(n, depth, BITS);
      assert Zeros(ROOTS - depth) == Zeros(ROOTS - depth - 1) + [0];
      assert Zeros(ROOTS - depth - 1) + ([0] + DigitsOf(n, depth, BITS)) == Zeros(ROOTS - depth) + DigitsOf(n, depth, BITS);
    } else {
      assert Zeros(0) == [];
    }
  }

  /** Every root deep enough for a page number finds the same page. */
  lemma RootsAgree(m: Nodes, roots: seq<nat>, level: nat, n: nat)
    requires Chain(m, roots) && level < ROOTS && n < Pow2((level + 1) * BITS)
    ensures Lookup(m, roots[level], DigitsOf(n, level + 1, BITS)) == PageAddr(m, roots[ROOTS - 1], n)
  {
    var path, short := Zeros(ROOTS - 1 - level), DigitsOf(n, level + 1, BITS);
    assert RootOk(m, roots, level);
    LongDigits(n, level + 1);
    LookupSplit(m, roots[ROOTS - 1], path, path + short);
    assert (path + short)[|path|..] == short;
  }

  // ---- choosing a root ----

  /** find_page_start's formula for the root of a page number. */
  function RadixLevel(n: nat): nat {
    HighestOne(n + 1) / BITS
  }

  /** For every 64-bit offset the chosen root exists, is at most the fourteenth and
      covers the page number, so radix_insert never refuses it. */
  lemma LevelCovers(offset: u64)
    ensures RadixLevel(offset / PAGE_SIZE) <= 13
    ensures offset / PAGE_SIZE < Pow2((RadixLevel(offset / PAGE_SIZE) + 1) * BITS)
  {
    LevelOf(offset / PAGE_SIZE);
  }

  lemma LevelOf(n: nat)
    requires n < PAGE_NUMBERS
    ensures RadixLevel(n) <= 13 && n < Pow2((RadixLevel(n) + 1) * BITS)
  {
    var k := HighestOne(n + 1);
    HighestBelow(n + 1, k);
    LevelFits(n, k, (k / BITS + 1) * BITS);
  }

  lemma HighestBelow(x: nat, k: nat)
    requires Pow2(k) <= x <= PAGE_NUMBERS
    ensures k <= 52
  {
    Pow53();
    if k >= 53 {
      PowMonotone(53, k);
    }
  }

  lemma LevelFits(n: nat, k: nat, width: nat)
    requires n + 1 < Pow2(k + 1) && k <= 52 && width == (k / BITS + 1) * BITS
    ensures k / BITS <= 13 && n < Pow2(width)
  {
    LevelBits(k);
    PowMonotone(k + 1, width);
  }

  lemma LevelBits(k: nat)
    ensures k + 1 <= (k / BITS + 1) * BITS && (k <= 52 ==> k / BITS <= 13)
  {
  }

  // ---- inserting a page through one root ----

  /** An insertion at the end of a path, seen from the top. */
  lemma OneChangedLift(m: Nodes, n: Nodes, top: nat, depth: nat, path: seq<nat>, c: nat, low: nat, key: seq<nat>, v: nat)
    requires depth == low + |path| && |key| == low && Lookup(m, top, path) == c
    requires Rerouted(m, n, top, depth, path, c) && OneChanged(m, n, c, low, key, v)
    ensures OneChanged(m, n, top, depth, path + key, v)
  {
    assert (path + key)[|path|..] == key;
    forall es | |es| <= depth && (if |es| == depth then es != path + key else Lookup(m, top, es) != 0)
      ensures Lookup(n, top, es) == Lookup(m, top, es)
    {
      KeptAt(m, n, top, depth, path, c, low, key, v, es);
    }
  }

  lemma KeptAt(m: Nodes, n: Nodes, top: nat, depth: nat, path: seq<nat>, c: nat, low: nat, key: seq<nat>, v: nat, es: seq<nat>)
    requires depth == low + |path| && |key| == low && Lookup(m, top, path) == c
    requires Rerouted(m, n, top, depth, path, c) && OneChanged(m, n, c, low, key, v)
    requires |es| <= depth && (if |es| == depth then es != path + key else Lookup(m, top, es) != 0)
    ensures Lookup(n, top, es) == Lookup(m, top, es)
  {
    if path <= es {
      LookupSplit(m, top, path, es);
      assert es == path + es[|path|..];
    }
  }

  /** The file keeps its nodes, takes only new ones, and leaves the rest of the heap
      alone. */
  ghost predicate FileGrown(m: Nodes, n: Nodes, roots: seq<nat>) {
    |roots| == ROOTS && Grown(m, n, roots[ROOTS - 1], ROOTS)
  }

  lemma FileGrownTrans(m: Nodes, n: Nodes, o: Nodes, roots: seq<nat>)
    requires FileGrown(m, n, roots) && FileGrown(n, o, roots)
    ensures FileGrown(m, o, roots)
  {
    GrownTrans(m, n, o, roots[ROOTS - 1], ROOTS);
  }

  lemma FileSame(m: Nodes, roots: seq<nat>)
    requires |roots| == ROOTS
    ensures FileGrown(m, m, roots)
  {
  }

  lemma GrownLift(m: Nodes, n: Nodes, top: nat, depth: nat, c: nat, low: nat)
    requires Grown(m, n, c, low) && NodesOf(m, c, low) <= NodesOf(m, top, depth)
    requires NodesOf(n, top, depth) == NodesOf(m, top, depth) - NodesOf(m, c, low) + NodesOf(n, c, low)
    ensures Grown(m, n, top, depth)
  {
  }

  lemma StillNested(m: Nodes, n: Nodes, roots: seq<nat>)
    requires Chain(m, roots) && Tree(n, roots[ROOTS - 1], ROOTS, FAN)
    requires forall es :: |es| < ROOTS && Lookup(m, roots[ROOTS - 1], es) != 0 ==>
               Lookup(n, roots[ROOTS - 1], es) == Lookup(m, roots[ROOTS - 1], es)
    ensures Chain(n, roots)
  {
    forall j | 0 <= j < ROOTS
      ensures AlongZeros(n, roots, j)
    {
      assert RootOk(m, roots, j);
    }
    NestedBelow(n, roots, ROOTS);
  }

  /** Inserting into one root changes exactly one page of the whole file and keeps
      the chain of roots and the rest of the heap. */
  lemma InsertIntoRoot(m: Nodes, n: Nodes, roots: seq<nat>, level: nat, page: nat, v: nat)
    requires Chain(m, roots) && level < ROOTS && page < Pow2((level + 1) * BITS)
    requires Tree(n, roots[level], level + 1, FAN) && Grown(m, n, roots[level], level + 1)
    requires OneChanged(m, n, roots[level], level + 1, DigitsOf(page, level + 1, BITS), v)
    ensures Chain(n, roots)
    ensures OneChanged(m, n, roots[ROOTS - 1], ROOTS, DigitsOf(page, ROOTS, BITS), v)
    ensures FileGrown(m, n, roots)
  {
    var low := level + 1;
    assert RootOk(m, roots, level) && RootOk(m, roots, ROOTS - 1);
    InsertBelow(m, n, roots[ROOTS - 1], ROOTS, Zeros(ROOTS - low), roots[level], low, DigitsOf(page, low, BITS), v);
    LongDigits(page, low);
    StillNested(m, n, roots);
  }

  lemma InsertBelow(m: Nodes, n: Nodes, top: nat, depth: nat, path: seq<nat>, c: nat, low: nat, key: seq<nat>, v: nat)
    requires Tree(m, top, depth, FAN) && depth == low + |path| && |key| == low > 0
    requires Lookup(m, top, path) == c && c != 0 && Tree(n, c, low, FAN)
    requires Grown(m, n, c, low) && OneChanged(m, n, c, low, key, v)
    ensures Tree(n, top, depth, FAN) && Grown(m, n, top, depth)
    ensures OneChanged(m, n, top, depth, path + key, v)
  {
    NodesInMem(m, top, depth, FAN);
    RebuildPath(m, n, top, depth, FAN, path, c, low);
    OneChangedLift(m, n, top, depth, path, c, low, key, v);
    GrownLift(m, n, top, depth, c, low);
  }

  // ---- several files on one heap ----

  /** The roots of a file and its pages. */
  ghost predicate File(m: Nodes, roots: seq<nat>, pages: Pages) {
    Chain(m, roots) && Holds(m, roots[ROOTS - 1], pages)
  }

  ghost predicate NoPages(m: Nodes, top: nat) {
    forall x :: 0 <= x < PAGE_NUMBERS ==> PageAddr(m, top, x) == 0
  }

  /** The page at `a` is one of the file's. */
  ghost predicate Addressed(m: Nodes, top: nat, a: nat) {
    a != 0 && exists x :: 0 <= x < PAGE_NUMBERS && PageAddr(m, top, x) == a
  }

  /** A page number keeps its page or gets one that nobody had. */
  ghost predicate OwnOrNew(m: Nodes, n: Nodes, top: nat, before: Pages, x: nat) {
    PageAddr(n, top, x) == PageAddr(m, top, x) || (PageAddr(n, top, x) != 0 && PageAddr(n, top, x) !in before)
  }

  /** Pages change only where they are the file's, and the file takes only new ones. */
  ghost predicate PagesKept(m: Nodes, n: Nodes, top: nat, before: Pages, after: Pages) {
    && before.Keys <= after.Keys
    && (forall a :: a in before && !Addressed(m, top, a) ==> after[a] == before[a])
    && (forall x :: 0 <= x < PAGE_NUMBERS ==> OwnOrNew(m, n, top, before, x))
  }

  /** What an operation on a file may do to the heap and to the pages. */
  ghost predicate FileStep(m: Nodes, n: Nodes, roots: seq<nat>, before: Pages, after: Pages) {
    FileGrown(m, n, roots) && PagesKept(m, n, roots[ROOTS - 1], before, after)
  }

  lemma FileStepSame(m: Nodes, roots: seq<nat>, pages: Pages)
    requires |roots| == ROOTS
    ensures FileStep(m, m, roots, pages, pages)
  {
    FileSame(m, roots);
  }

  /** A page that is not the file's does not become the file's. */
  lemma NotTaken(m: Nodes, n: Nodes, top: nat, before: Pages, after: Pages, a: nat)
    requires PagesKept(m, n, top, before, after) && a in before
    ensures Addressed(n, top, a) ==> Addressed(m, top, a)
  {
    forall x | 0 <= x < PAGE_NUMBERS && PageAddr(n, top, x) == a
      ensures PageAddr(m, top, x) == a || a == 0
    {
      assert OwnOrNew(m, n, top, before, x);
    }
  }

  lemma PagesKeptTrans(m: Nodes, n: Nodes, o: Nodes, top: nat, p: Pages, q: Pages, r: Pages)
    requires PagesKept(m, n, top, p, q) && PagesKept(n, o, top, q, r)
    ensures PagesKept(m, o, top, p, r)
  {
    forall a | a in p && !Addressed(m, top, a)
      ensures r[a] == p[a]
    {
      NotTaken(m, n, top, p, q, a);
    }
    forall x | 0 <= x < PAGE_NUMBERS
      ensures OwnOrNew(m, o, top, p, x)
    {
      assert OwnOrNew(m, n, top, p, x) && OwnOrNew(n, o, top, q, x);
    }
  }

  lemma FileStepTrans(m: Nodes, n: Nodes, o: Nodes, roots: seq<nat>, p: Pages, q: Pages, r: Pages)
    requires FileStep(m, n, roots, p, q) && FileStep(n, o, roots, q, r)
    ensures FileStep(m, o, roots, p, r)
  {
    FileGrownTrans(m, n, o, roots);
    PagesKeptTrans(m, n, o, roots[ROOTS - 1], p, q, r);
  }

  ghost predicate NotShared(m: Nodes, top: nat, other: nat, x: nat, y: nat) {
    PageAddr(m, top, x) != 0 ==> PageAddr(m, top, x) != PageAddr(m, other, y)
  }

  /** Two files share no page. */
  ghost predicate PagesApart(m: Nodes, top: nat, other: nat) {
    forall x, y :: 0 <= x < PAGE_NUMBERS && 0 <= y < PAGE_NUMBERS ==> NotShared(m, top, other, x, y)
  }

  /** Two files share no node and no page. */
  ghost predicate Separate(m: Nodes, roots: seq<nat>, others: seq<nat>) {
    && |roots| == ROOTS && |others| == ROOTS
    && NodesOf(m, roots[ROOTS - 1], ROOTS) !! NodesOf(m, others[ROOTS - 1], ROOTS)
    && PagesApart(m, roots[ROOTS - 1], others[ROOTS - 1])
  }

  lemma SeparateBoth(m: Nodes, roots: seq<nat>, others: seq<nat>)
    requires Separate(m, roots, others)
    ensures Separate(m, others, roots)
  {
    var top, other := roots[ROOTS - 1], others[ROOTS - 1];
    forall x, y | 0 <= x < PAGE_NUMBERS && 0 <= y < PAGE_NUMBERS
      ensures NotShared(m, other, top, x, y)
    {
      assert NotShared(m, top, other, y, x);
    }
  }

  /** The nodes and page addresses of a file are the same. */
  ghost predicate Untouched(m: Nodes, n: Nodes, roots: seq<nat>) {
    && |roots| == ROOTS && SameAddresses(m, n, roots[ROOTS - 1])
    && NodesOf(n, roots[ROOTS - 1], ROOTS) == NodesOf(m, roots[ROOTS - 1], ROOTS)
  }

  lemma StillSeparate(m: Nodes, n: Nodes, roots: seq<nat>, others: seq<nat>)
    requires Separate(m, roots, others) && Untouched(m, n, roots) && Untouched(m, n, others)
    ensures Separate(n, roots, others)
  {
    var top, other := roots[ROOTS - 1], others[ROOTS - 1];
    forall x, y | 0 <= x < PAGE_NUMBERS && 0 <= y < PAGE_NUMBERS
      ensures NotShared(n, top, other, x, y)
    {
      assert NotShared(m, top, other, x, y);
    }
  }

  /** Files on one heap that share nothing. */
  ghost predicate Files(m: Nodes, files: seq<seq<nat>>, pages: Pages) {
    && (forall i :: 0 <= i < |files| ==> File(m, files[i], pages))
    && (forall i, j :: 0 <= i < |files| && 0 <= j < |files| && i != j ==> Separate(m, files[i], files[j]))
  }

  /** An operation on one of the files on a heap keeps them all files that share
      nothing, and the contents of every other one. */
  lemma FilesKept(m: Nodes, n: Nodes, files: seq<seq<nat>>, i: nat, before: Pages, after: Pages)
    requires Files(m, files, before) && i < |files|
    requires FileStep(m, n, files[i], before, after) && File(n, files[i], after)
    ensures Files(n, files, after)
    ensures forall j :: 0 <= j < |files| && j != i ==>
              ViewOf(n, files[j][ROOTS - 1], after) == ViewOf(m, files[j][ROOTS - 1], before)
  {
    forall j | 0 <= j < |files| && j != i
      ensures File(n, files[j], after) && Untouched(m, n, files[j])
      ensures Separate(n, files[i], files[j]) && Separate(n, files[j], files[i])
      ensures ViewOf(n, files[j][ROOTS - 1], after) == ViewOf(m, files[j][ROOTS - 1], before)
    {
      assert Separate(m, files[i], files[j]) && File(m, files[j], before);
      OtherFileKept(m, n, files[i], files[j], before, after);
      SeparateBoth(n, files[i], files[j]);
    }
    forall j, k | 0 <= j < |files| && 0 <= k < |files| && j != k
      ensures Separate(n, files[j], files[k])
    {
      if j != i && k != i {
        StillSeparate(m, n, files[j], files[k]);
      }
    }
  }

  /** A file created on the heap joins the others. */
  lemma FileJoins(m: Nodes, n: Nodes, files: seq<seq<nat>>, roots: seq<nat>, pages: Pages)
    requires Files(m, files, pages) && OutsideKept(m, n, {}) && File(n, roots, pages)
    requires NodesOf(n, roots[ROOTS - 1], ROOTS) !! m.Keys
    requires NoPages(n, roots[ROOTS - 1])
    ensures Files(n, files + [roots], pages)
    ensures forall j :: 0 <= j < |files| ==>
              ViewOf(n, files[j][ROOTS - 1], pages) == ViewOf(m, files[j][ROOTS - 1], pages)
  {
    forall j | 0 <= j < |files|
      ensures File(n, files[j], pages) && Untouched(m, n, files[j])
      ensures Separate(n, roots, files[j]) && Separate(n, files[j], roots)
      ensures ViewOf(n, files[j][ROOTS - 1], pages) == ViewOf(m, files[j][ROOTS - 1], pages)
    {
      assert File(m, files[j], pages);
      OldFileKept(m, n, files[j], roots, pages);
    }
    forall j, k | 0 <= j < |files| && 0 <= k < |files| && j != k
      ensures Separate(n, files[j], files[k])
    {
      assert Separate(m, files[j], files[k]);
      StillSeparate(m, n, files[j], files[k]);
    }
  }

  lemma OldFileKept(m: Nodes, n: Nodes, others: seq<nat>, roots: seq<nat>, pages: Pages)
    requires File(m, others, pages) && OutsideKept(m, n, {}) && |roots| == ROOTS
    requires NodesOf(n, roots[ROOTS - 1], ROOTS) !! m.Keys
    requires NoPages(n, roots[ROOTS - 1])
    ensures File(n, others, pages) && Untouched(m, n, others)
    ensures Separate(n, roots, others) && Separate(n, others, roots)
    ensures ViewOf(n, others[ROOTS - 1], pages) == ViewOf(m, others[ROOTS - 1], pages)
  {
    var other := others[ROOTS - 1];
    assert RootOk(m, others, ROOTS - 1);
    NodesInMem(m, other, ROOTS, FAN);
    Frame(m, n, other, ROOTS, FAN);
    StillNested(m, n, others);
    assert PagesApart(n, roots[ROOTS - 1], other);
    SeparateBoth(n, roots, others);
    SameAddressesSameView(m, n, other, pages);
  }

  lemma SameAddressesSameView(m: Nodes, n: Nodes, top: nat, pages: Pages)
    requires Holds(m, top, pages) && SameAddresses(m, n, top)
    ensures Holds(n, top, pages) && ViewOf(n, top, pages) == ViewOf(m, top, pages)
  {
    forall x | 0 <= x < PAGE_NUMBERS
      ensures PageKept(n, top, pages, x) && (HasPage(n, top, pages, x) <==> HasPage(m, top, pages, x))
    {
      assert PageKept(m, top, pages, x);
    }
    forall x, y | 0 <= x < PAGE_NUMBERS && 0 <= y < PAGE_NUMBERS
      ensures OwnPage(n, top, x, y)
    {
      assert OwnPage(m, top, x, y);
    }
  }

  /** What is done to one file leaves every other file on the heap, with its contents,
      as it was. */
  lemma OtherFileKept(m: Nodes, n: Nodes, roots: seq<nat>, others: seq<nat>, before: Pages, after: Pages)
    requires FileStep(m, n, roots, before, after) && Separate(m, roots, others)
    requires File(m, others, before)
    ensures File(n, others, after) && Separate(n, roots, others)
    ensures ViewOf(n, others[ROOTS - 1], after) == ViewOf(m, others[ROOTS - 1], before)
    ensures Untouched(m, n, others)
  {
    var top, other := roots[ROOTS - 1], others[ROOTS - 1];
    assert RootOk(m, others, ROOTS - 1);
    TreeKept(m, n, top, other, ROOTS);
    StillNested(m, n, others);
    forall x
      ensures PageAddr(n, other, x) == PageAddr(m, other, x)
    {
    }
    StillApart(m, n, top, other, before, after);
    SamePages(m, n, top, other, before, after);
  }

  lemma TreeKept(m: Nodes, n: Nodes, changed: nat, top: nat, depth: nat)
    requires Tree(m, top, depth, FAN) && Grown(m, n, changed, depth)
    requires NodesOf(m, changed, depth) !! NodesOf(m, top, depth)
    ensures Tree(n, top, depth, FAN) && NodesOf(n, changed, depth) !! NodesOf(n, top, depth)
    ensures NodesOf(n, top, depth) == NodesOf(m, top, depth)
    ensures forall es :: |es| <= depth ==> Lookup(n, top, es) == Lookup(m, top, es)
  {
    NodesInMem(m, top, depth, FAN);
    Frame(m, n, top, depth, FAN);
  }

  ghost predicate SameAddresses(m: Nodes, n: Nodes, top: nat) {
    forall x :: PageAddr(n, top, x) == PageAddr(m, top, x)
  }

  lemma StillApart(m: Nodes, n: Nodes, top: nat, other: nat, before: Pages, after: Pages)
    requires PagesKept(m, n, top, before, after) && PagesApart(m, top, other)
    requires Holds(m, other, before) && SameAddresses(m, n, other)
    ensures PagesApart(n, top, other)
  {
    forall x, y | 0 <= x < PAGE_NUMBERS && 0 <= y < PAGE_NUMBERS
      ensures NotShared(n, top, other, x, y)
    {
      assert NotShared(m, top, other, x, y) && OwnOrNew(m, n, top, before, x) && PageKept(m, other, before, y);
    }
  }

  lemma NotOurs(m: Nodes, top: nat, other: nat, x: nat)
    requires PagesApart(m, top, other) && x < PAGE_NUMBERS
    ensures !Addressed(m, top, PageAddr(m, other, x))
  {
    forall y | 0 <= y < PAGE_NUMBERS
      ensures PageAddr(m, top, y) != PageAddr(m, other, x) || PageAddr(m, top, y) == 0
    {
      assert NotShared(m, top, other, y, x);
    }
  }

  lemma OtherPage(m: Nodes, n: Nodes, top: nat, other: nat, before: Pages, after: Pages, x: nat)
    requires PagesKept(m, n, top, before, after) && PagesApart(m, top, other)
    requires Holds(m, other, before) && SameAddresses(m, n, other) && x < PAGE_NUMBERS
    ensures PageKept(n, other, after, x)
    ensures HasPage(n, other, after, x) <==> HasPage(m, other, before, x)
    ensures HasPage(m, other, before, x) ==> after[PageAddr(n, other, x)] == before[PageAddr(m, other, x)]
  {
    assert PageKept(m, other, before, x);
    NotOurs(m, top, other, x);
  }

  lemma SamePages(m: Nodes, n: Nodes, top: nat, other: nat, before: Pages, after: Pages)
    requires PagesKept(m, n, top, before, after) && PagesApart(m, top, other)
    requires Holds(m, other, before) && SameAddresses(m, n, other)
    ensures Holds(n, other, after) && ViewOf(n, other, after) == ViewOf(m, other, before)
  {
    forall x | 0 <= x < PAGE_NUMBERS
      ensures PageKept(n, other, after, x) && (HasPage(n, other, after, x) <==> HasPage(m, other, before, x))
      ensures HasPage(m, other, before, x) ==> after[PageAddr(n, other, x)] == before[PageAddr(m, other, x)]
    {
      OtherPage(m, n, top, other, before, after, x);
    }
    forall x, y | 0 <= x < PAGE_NUMBERS && 0 <= y < PAGE_NUMBERS
      ensures OwnPage(n, other, x, y)
    {
      assert OwnPage(m, other, x, y);
    }
  }
}
