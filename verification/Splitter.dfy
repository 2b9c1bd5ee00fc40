/**
 The loop of vma_replace_section that cuts a range into 4 KiB, 2 MiB and 1 GiB
 pieces and counts them in five groups. The loop works on byte addresses; what
 it computes is described in pages.
 */
module Splitter {
  import opened Machine

  const MEGA_BYTES := 0x20_0000
  const GIGA_BYTES := 0x4000_0000

  const MEGA := 512
  const GIGA := 262144

  datatype Counts = Counts(pre0: nat, pre1: nat, ppn2: nat, post1: nat, post0: nat) {
    /** Pages the pieces cover together. */
    function Weight(): nat {
      pre0 + post0 + (pre1 + post1) * MEGA + ppn2 * GIGA
    }
  }

  /** One piece of a range, in pages. */
  datatype Piece = Piece(start: nat, size: nat)

  function FloorMega(x: nat): nat {
    x / MEGA * MEGA
  }

  function CeilMega(x: nat): nat {
    (x + MEGA - 1) / MEGA * MEGA
  }

  function CeilGiga(x: nat): nat {
    (x + GIGA - 1) / GIGA * GIGA
  }

  /** Whole aligned 2 MiB blocks inside [lo, hi). */
  function MegaBlocks(lo: nat, hi: nat): nat {
    var first, last := (lo + MEGA - 1) / MEGA, hi / MEGA;
    if first <= last then last - first else 0
  }

  /** What the five counters hold for a range of whole pages. Before the first
      1 GiB boundary everything is counted as `pre`, small pages behind the last
      2 MiB block included. */
  function Split(start: nat, size: nat): Counts {
    var end := start + size;
    var boundary := CeilGiga(start);
    if boundary >= end then
      var mega := MegaBlocks(start, end);
      Counts(if size >= mega * MEGA then size - mega * MEGA else 0, mega, 0, 0, 0)
    else
      var mega := MegaBlocks(start, boundary);
      var rest := (end - boundary) % GIGA;
      Counts(if boundary - start >= mega * MEGA then boundary - start - mega * MEGA else 0, mega,
             (end - boundary) / GIGA, rest / MEGA, rest % MEGA)
  }

  /** The pieces tile [lo, hi) in order, each aligned to its own size. */
  ghost predicate Tiles(pieces: seq<Piece>, lo: nat, hi: nat) {
    if pieces == [] then lo == hi
    else
      && (pieces[0].size == 1 || pieces[0].size == MEGA || pieces[0].size == GIGA)
      && pieces[0].start == lo && lo % pieces[0].size == 0
      && Tiles(pieces[1..], lo + pieces[0].size, hi)
  }

  ghost function Number(pieces: seq<Piece>, size: nat): nat {
    if pieces == [] then 0
    else (if pieces[0].size == size then 1 else 0) + Number(pieces[1..], size)
  }

  // ---- before the first 1 GiB boundary ----

  /** The counters while every piece is counted as `pre`; `stop` is the first
      1 GiB boundary or the end of the range. */
  ghost predicate InHead(start: nat, cur: nat, stop: nat, c: Counts) {
    && start <= cur <= stop
    && c.ppn2 == 0 && c.post1 == 0 && c.post0 == 0
    && c.pre1 * MEGA + c.pre0 == cur - start
    && c.pre1 == MegaBlocks(start, cur)
    && (CeilMega(start) <= cur <= FloorMega(stop) ==> cur % MEGA == 0)
  }

  lemma MegaBlocksStep(start: nat, cur: nat)
    requires start <= cur && cur % MEGA == 0
    ensures MegaBlocks(start, cur + MEGA) == MegaBlocks(start, cur) + 1
    ensures CeilMega(start) <= cur
  {
    assert (start + MEGA - 1) / MEGA <= cur / MEGA;
  }

  lemma MegaBlocksSame(start: nat, cur: nat, stop: nat)
    requires start <= cur && cur + 1 <= stop
    requires cur % MEGA == 0 ==> stop < cur + MEGA
    requires CeilMega(start) <= cur <= FloorMega(stop) ==> cur % MEGA == 0
    ensures MegaBlocks(start, cur + 1) == MegaBlocks(start, cur)
    ensures CeilMega(start) <= cur + 1 <= FloorMega(stop) ==> (cur + 1) % MEGA == 0
  {
    var q, r := cur / MEGA, cur % MEGA;
    if r == MEGA - 1 {
      assert cur + 1 == (q + 1) * MEGA;
      assert q + 1 <= stop / MEGA;
    } else {
      assert cur + 1 == q * MEGA + (r + 1);
      assert (cur + 1) / MEGA == q;
    }
  }

  // ---- past the first 1 GiB boundary ----

  /** `done` of `total` pages past the boundary are counted: 1 GiB pieces first,
      then 2 MiB pieces, then small pages. */
  ghost predicate InTail(done: nat, total: nat, c: Counts) {
    && done <= total
    && c.ppn2 * GIGA + c.post1 * MEGA + c.post0 == done
    && (if done <= total / GIGA * GIGA then done % GIGA == 0 && c.post1 == 0 && c.post0 == 0
        else if done <= FloorMega(total) then done % MEGA == 0 && c.ppn2 == total / GIGA && c.post0 == 0
        else c.ppn2 == total / GIGA && c.post1 == total % GIGA / MEGA)
  }

  lemma TailGiga(done: nat, total: nat, c: Counts)
    requires InTail(done, total, c) && done % GIGA == 0 && done + GIGA <= total
    ensures InTail(done + GIGA, total, c.(ppn2 := c.ppn2 + 1))
  {
    assert done / GIGA + 1 <= total / GIGA;
  }

  lemma TailMega(done: nat, total: nat, c: Counts)
    requires InTail(done, total, c) && done % MEGA == 0 && done + MEGA <= total
    requires done % GIGA == 0 ==> total < done + GIGA
    ensures InTail(done + MEGA, total, c.(post1 := c.post1 + 1))
  {
    assert done / MEGA + 1 <= total / MEGA;
    if done <= total / GIGA * GIGA {
      assert done == total / GIGA * GIGA;
    }
  }

  lemma TailPage(done: nat, total: nat, c: Counts)
    requires InTail(done, total, c) && done + 1 <= total
    requires done % MEGA == 0 ==> total < done + MEGA
    ensures InTail(done + 1, total, c.(post0 := c.post0 + 1))
  {
    var g, m := total / GIGA, total % GIGA / MEGA;
    MegaPart(total);
    if done <= FloorMega(total) {
      WholeBlocks(done, total, c);
      FloorIs(done, total);
      FullCounts(done, c, g, m);
    }
    assert done >= FloorMega(total) && c.ppn2 == g && c.post1 == m;
  }

  lemma WholeBlocks(done: nat, total: nat, c: Counts)
    requires InTail(done, total, c) && done <= FloorMega(total)
    ensures done % MEGA == 0 && c.post0 == 0
    ensures done <= total / GIGA * GIGA ==> c.post1 == 0
    ensures done > total / GIGA * GIGA ==> c.ppn2 == total / GIGA
  {
    if done <= total / GIGA * GIGA {
      var k := done / GIGA;
      assert done == (k * 512) * MEGA;
    }
  }

  lemma FloorIs(done: nat, total: nat)
    requires done % MEGA == 0 && done <= total < done + MEGA
    ensures FloorMega(total) == done
  {
    assert total / MEGA == done / MEGA;
  }

  lemma FullCounts(done: nat, c: Counts, g: nat, m: nat)
    requires done == g * GIGA + m * MEGA && c.post0 == 0 && c.ppn2 * GIGA + c.post1 * MEGA == done
    requires done <= g * GIGA ==> c.post1 == 0
    requires done > g * GIGA ==> c.ppn2 == g
    ensures c.ppn2 == g && c.post1 == m
  {
  }

  lemma MegaPart(total: nat)
    ensures FloorMega(total) == total / GIGA * GIGA + total % GIGA / MEGA * MEGA
  {
    var g, m, r := total / GIGA, total % GIGA / MEGA, total % GIGA % MEGA;
    assert total == (g * 512 + m) * MEGA + r;
  }

  // ---- the loop ----

  /** Whether a 1 GiB boundary was reached, which the loop records as
      `highest_reached_ppn` 0 or 2. */
  datatype Phase = Head | Tail

  function PhaseOf(highest: nat): Phase {
    if highest == 0 then Head else Tail
  }

  datatype Progress = Progress(cur: nat, phase: Phase, c: Counts)

  const NoCounts := Counts(0, 0, 0, 0, 0)

  /** One iteration, in pages: take the largest piece that is aligned and fits. */
  function Next(s: Progress, end: nat): Progress {
    var c := s.c;
    var now := if s.cur % GIGA == 0 then Tail else s.phase;
    if s.cur % GIGA == 0 && s.cur + GIGA <= end then Progress(s.cur + GIGA, now, c.(ppn2 := c.ppn2 + 1))
    else if s.cur % MEGA == 0 && s.cur + MEGA <= end then
      Progress(s.cur + MEGA, now, if now == Tail then c.(post1 := c.post1 + 1) else c.(pre1 := c.pre1 + 1))
    else
      Progress(s.cur + 1, now, if now == Tail then c.(post0 := c.post0 + 1) else c.(pre0 := c.pre0 + 1))
  }

  function Greedy(s: Progress, end: nat): Counts
    decreases end - s.cur
  {
    if s.cur >= end then s.c else Greedy(Next(s, end), end)
  }

  /** The first 1 GiB boundary at or above `start`. */
  ghost predicate IsBoundary(start: nat, boundary: nat) {
    boundary % GIGA == 0 && start <= boundary < start + GIGA
  }

  /** The counters in the middle of the loop. */
  ghost predicate SoFar(start: nat, boundary: nat, s: Progress, end: nat) {
    match s.phase
    case Head => InHead(start, s.cur, if boundary >= end then end else boundary, s.c)
    case Tail =>
      && start <= boundary <= s.cur <= end
      && s.c.pre1 == MegaBlocks(start, boundary)
      && s.c.pre1 * MEGA + s.c.pre0 == boundary - start
      && InTail(s.cur - boundary, end - boundary, s.c)
  }

  /** Reaching the boundary moves the counting from head to tail. */
  lemma EnterTail(start: nat, boundary: nat, s: Progress, end: nat)
    requires IsBoundary(start, boundary)
    requires SoFar(start, boundary, s, end) && s.phase == Head && s.cur % GIGA == 0 && s.cur < end
    ensures SoFar(start, boundary, s.(phase := Tail), end)
  {
    OneBoundary(start, boundary, s.cur);
  }

  lemma OneBoundary(start: nat, boundary: nat, cur: nat)
    requires IsBoundary(start, boundary) && start <= cur <= boundary && cur % GIGA == 0
    ensures cur == boundary
  {
    var a, b := cur / GIGA, boundary / GIGA;
    assert cur == a * GIGA && boundary == b * GIGA;
  }

  /** One iteration before the boundary. */
  lemma HeadStep(start: nat, boundary: nat, s: Progress, end: nat)
    requires IsBoundary(start, boundary)
    requires SoFar(start, boundary, s, end) && s.phase == Head && s.cur < end && s.cur % GIGA != 0
    ensures SoFar(start, boundary, Next(s, end), end)
  {
    assert s.cur < boundary;
    if s.cur % MEGA == 0 {
      NextBlock(s.cur, boundary);
    }
    if s.cur % MEGA == 0 && s.cur + MEGA <= end {
      MegaBlocksStep(start, s.cur);
    } else {
      MegaBlocksSame(start, s.cur, if boundary >= end then end else boundary);
    }
  }

  lemma NextBlock(cur: nat, boundary: nat)
    requires cur % MEGA == 0 && boundary % GIGA == 0 && cur < boundary
    ensures cur + MEGA <= boundary
  {
  }

  /** ... and past it. */
  lemma TailStep(start: nat, boundary: nat, s: Progress, end: nat)
    requires IsBoundary(start, boundary)
    requires SoFar(start, boundary, s, end) && s.phase == Tail && s.cur < end
    ensures SoFar(start, boundary, Next(s, end), end)
  {
    var done, total := s.cur - boundary, end - boundary;
    FromBoundary(boundary, done);
    if s.cur % GIGA == 0 && s.cur + GIGA <= end {
      TailGiga(done, total, s.c);
    } else if s.cur % MEGA == 0 && s.cur + MEGA <= end {
      TailMega(done, total, s.c);
    } else {
      TailPage(done, total, s.c);
    }
  }

  /** Distances from a 1 GiB boundary are aligned as the addresses are. */
  lemma FromBoundary(boundary: nat, done: nat)
    requires boundary % GIGA == 0
    ensures (boundary + done) % GIGA == done % GIGA
    ensures (boundary + done) % MEGA == done % MEGA
  {
    var k := boundary / GIGA;
    GigaPart(k, done);
    MegaRest(k * 512, done);
  }

  lemma GigaPart(k: nat, done: nat)
    ensures (k * GIGA + done) % GIGA == done % GIGA
  {
  }

  lemma MegaRest(k: nat, done: nat)
    ensures (k * MEGA + done) % MEGA == done % MEGA
  {
  }

  lemma NextKeeps(start: nat, boundary: nat, s: Progress, end: nat)
    requires IsBoundary(start, boundary)
    requires SoFar(start, boundary, s, end) && s.cur < end
    ensures SoFar(start, boundary, Next(s, end), end)
  {
    if s.phase == Tail {
      TailStep(start, boundary, s, end);
    } else if s.cur % GIGA == 0 {
      EnterTail(start, boundary, s, end);
      TailStep(start, boundary, s.(phase := Tail), end);
      assert Next(s, end) == Next(s.(phase := Tail), end);
    } else {
      HeadStep(start, boundary, s, end);
    }
  }

  lemma InRange(start: nat, boundary: nat, s: Progress, end: nat)
    requires SoFar(start, boundary, s, end)
    ensures start <= s.cur <= end
  {
  }

  /** At the end of the range the counters are those of `Split`. */
  lemma Finished(start: nat, s: Progress, end: nat)
    requires SoFar(start, CeilGiga(start), s, end) && start < end && s.cur == end
    ensures s.c == Split(start, end - start)
    ensures s.c.Weight() == end - start
  {
    var boundary := CeilGiga(start);
    if s.phase == Head {
      assert boundary >= end;
    } else if boundary == end {
      assert s.c.ppn2 == 0;
    } else {
      MegaPart(end - boundary);
    }
  }

  lemma Begin(start: nat, end: nat)
    requires start <= end
    ensures IsBoundary(start, CeilGiga(start))
    ensures SoFar(start, CeilGiga(start), Progress(start, Head, NoCounts), end)
  {
    FirstBoundary(start);
  }

  lemma FirstBoundary(start: nat)
    ensures IsBoundary(start, CeilGiga(start))
  {
    var q := (start + GIGA - 1) / GIGA;
    assert q * GIGA <= start + GIGA - 1 < q * GIGA + GIGA;
  }

  lemma {:induction false} GreedyRun(start: nat, s: Progress, end: nat)
    requires IsBoundary(start, CeilGiga(start)) && start < end && s.cur <= end
    requires SoFar(start, CeilGiga(start), s, end)
    ensures Greedy(s, end) == Split(start, end - start)
    ensures Greedy(s, end).Weight() == end - start
    decreases end - s.cur
  {
    if s.cur == end {
      Finished(start, s, end);
    } else {
      NextKeeps(start, CeilGiga(start), s, end);
      InRange(start, CeilGiga(start), Next(s, end), end);
      GreedyRun(start, Next(s, end), end);
    }
  }

  /** The pieces the loop takes. */
  ghost function PiecesFrom(s: Progress, end: nat): seq<Piece>
    decreases end - s.cur
  {
    if s.cur >= end then []
    else [Piece(s.cur, Next(s, end).cur - s.cur)] + PiecesFrom(Next(s, end), end)
  }

  /** The pieces tile the range, and the counters count them. */
  lemma {:induction false} PiecesTile(s: Progress, end: nat)
    requires s.cur <= end
    ensures Tiles(PiecesFrom(s, end), s.cur, end)
    ensures Number(PiecesFrom(s, end), 1) + s.c.pre0 + s.c.post0 == Greedy(s, end).pre0 + Greedy(s, end).post0
    ensures Number(PiecesFrom(s, end), MEGA) + s.c.pre1 + s.c.post1 == Greedy(s, end).pre1 + Greedy(s, end).post1
    ensures Number(PiecesFrom(s, end), GIGA) + s.c.ppn2 == Greedy(s, end).ppn2
    decreases end - s.cur
  {
    if s.cur < end {
      PiecesTile(Next(s, end), end);
      assert PiecesFrom(s, end)[1..] == PiecesFrom(Next(s, end), end);
    }
  }

  /** Taking the largest aligned piece each time cuts a range into naturally
      aligned pieces that tile it; the counters are those of `Split`, they count
      the pieces by size, and their weighted sum is the size of the range. */
  lemma GreedyIsSplit(start: nat, end: nat)
    requires start < end
    ensures var s := Progress(start, Head, NoCounts);
            var c := Split(start, end - start);
            && Greedy(s, end) == c && c.Weight() == end - start
            && Tiles(PiecesFrom(s, end), start, end)
            && Number(PiecesFrom(s, end), 1) == c.pre0 + c.post0
            && Number(PiecesFrom(s, end), MEGA) == c.pre1 + c.post1
            && Number(PiecesFrom(s, end), GIGA) == c.ppn2
  {
    Begin(start, end);
    GreedyRun(start, Progress(start, Head, NoCounts), end);
    PiecesTile(Progress(start, Head, NoCounts), end);
  }

  // ---- bytes and pages ----

  /** The alignment tests of the loop, `ROUND_MOD_DOWN(cur, jump) == cur`. */
  method AlignmentOf(cur: nat) returns (giga: bool, mega: bool, page: bool)
    ensures page <==> cur % PAGE_SIZE == 0
    ensures mega <==> page && cur / PAGE_SIZE % MEGA == 0
    ensures giga <==> page && cur / PAGE_SIZE % GIGA == 0
  {
    giga := cur / GIGA_BYTES * GIGA_BYTES == cur;
    mega := cur / MEGA_BYTES * MEGA_BYTES == cur;
    page := cur / PAGE_SIZE * PAGE_SIZE == cur;
    MegaTest(cur);
    GigaTest(cur);
  }

  lemma PageRemainder(page: nat, odd: nat)
    requires odd < PAGE_SIZE
    ensures (page * PAGE_SIZE + odd) / PAGE_SIZE == page && (page * PAGE_SIZE + odd) % PAGE_SIZE == odd
  {
  }

  lemma MegaTest(x: nat)
    ensures x / MEGA_BYTES * MEGA_BYTES == x <==> x % PAGE_SIZE == 0 && x / PAGE_SIZE % MEGA == 0
  {
    var m, p := x / MEGA_BYTES, x / PAGE_SIZE;
    if m * MEGA_BYTES == x {
      assert x == (m * 512) * PAGE_SIZE;
    }
    if x == p * PAGE_SIZE && p % MEGA == 0 {
      assert x == (p / MEGA) * MEGA_BYTES;
    }
  }

  lemma GigaTest(x: nat)
    ensures x / GIGA_BYTES * GIGA_BYTES == x <==> x % PAGE_SIZE == 0 && x / PAGE_SIZE % GIGA == 0
  {
    var m, p := x / GIGA_BYTES, x / PAGE_SIZE;
    if m * GIGA_BYTES == x {
      assert x == (m * 262144) * PAGE_SIZE;
    }
    if x == p * PAGE_SIZE && p % GIGA == 0 {
      assert x == (p / GIGA) * GIGA_BYTES;
    }
  }

  /** The splitter halts exactly on a misaligned non-empty request; otherwise the
      five counters are those of `Split`, and their weighted sum is the size. */
  method SplitRange(start: nat, size: nat) returns (r: Outcome<Counts>)
    requires start + size <= 0x80_0000_0000
    ensures r.Halt? <==> size > 0 && (start % PAGE_SIZE != 0 || size % PAGE_SIZE != 0)
    ensures r.Done? && size > 0 ==> r.value == Split(start / PAGE_SIZE, size / PAGE_SIZE)
    ensures r.Done? ==> r.value.Weight() * PAGE_SIZE == size
  {
    var c := NoCounts;
    var left, cur, highest := size, start, 0;
    // the same in pages
    ghost var from, at, end := start / PAGE_SIZE, start / PAGE_SIZE, start / PAGE_SIZE + size / PAGE_SIZE;
    ghost var odd, tail := start % PAGE_SIZE, size % PAGE_SIZE;
    ghost var total := Greedy(Progress(from, Head, c), end);
    while left > 0
      invariant cur == at * PAGE_SIZE + odd
      invariant left == (end - at) * PAGE_SIZE + tail
      invariant odd != 0 ==> at == from
      invariant at == from ==> c == NoCounts
      invariant from <= at <= end
      invariant odd == 0 && tail == 0 ==> Greedy(Progress(at, PhaseOf(highest), c), end) == total
      invariant highest == 0 || highest == 2
      decreases left
    {
      var giga, mega, page := AlignmentOf(cur);
      PageRemainder(at, odd);
      ghost var next := Next(Progress(at, PhaseOf(highest), c), end);
      if giga && highest < 2 {
        highest := 2;
      }
      if giga && highest < 1 {
        highest := 1;
      }
      if giga && left >= GIGA_BYTES {
        c := c.(ppn2 := c.ppn2 + 1);
        left := left - GIGA_BYTES;
        cur := cur + GIGA_BYTES;
        at := at + GIGA;
      } else if mega && left >= MEGA_BYTES {
        if highest > 1 {
          c := c.(post1 := c.post1 + 1);
        } else {
          c := c.(pre1 := c.pre1 + 1);
        }
        left := left - MEGA_BYTES;
        cur := cur + MEGA_BYTES;
        at := at + MEGA;
      } else if page && left >= PAGE_SIZE {
        if highest > 0 {
          c := c.(post0 := c.post0 + 1);
        } else {
          c := c.(pre0 := c.pre0 + 1);
        }
        left := left - PAGE_SIZE;
        cur := cur + PAGE_SIZE;
        at := at + 1;
      } else {
        return Halt;
      }
      assert next == Progress(at, PhaseOf(highest), c);
    }
    if size > 0 {
      GreedyIsSplit(from, end);
    }
    r := Done(c);
  }

  /** A short request inside one 2 MiB window, not starting on a 1 GiB boundary,
      is counted as small pages before the boundary. */
  lemma WindowSplit(start: nat, size: nat)
    requires 0 < size < MEGA && start % MEGA + size <= MEGA && start % GIGA != 0
    ensures Split(start, size) == Counts(size, 0, 0, 0, 0)
  {
    NoBoundaryInside(start, size);
    var q, r := start / MEGA, start % MEGA;
    assert start == q * MEGA + r;
    if r == 0 {
      assert (start + size) / MEGA == q;
    } else {
      assert start + MEGA - 1 == (q + 1) * MEGA + (r - 1);
      assert (start + size) / MEGA <= q + 1;
    }
  }

  lemma NoBoundaryInside(start: nat, size: nat)
    requires start % MEGA + size <= MEGA && start % GIGA != 0
    ensures CeilGiga(start) >= start + size
  {
    FirstBoundary(start);
    if start == CeilGiga(start) {
      assert false;
    }
    BlockEnd(start);
    NextBlock(start / MEGA * MEGA, CeilGiga(start));
  }

  lemma BlockEnd(start: nat)
    ensures start / MEGA * MEGA % MEGA == 0 && start == start / MEGA * MEGA + start % MEGA
  {
  }

  /** Where the first phase ends: at the first 1 GiB boundary or with the request. */
  function HeadEnd(start: nat, size: nat): nat {
    if CeilGiga(start) < start + size then CeilGiga(start) else start + size
  }

  lemma HeadSmall(start: nat, size: nat)
    ensures start <= CeilGiga(start)
    ensures Split(start, size).pre0 + MegaBlocks(start, HeadEnd(start, size)) * MEGA == HeadEnd(start, size) - start
  {
    FirstBoundary(start);
    BlocksFit(start, HeadEnd(start, size));
  }

  lemma BlocksFit(start: nat, stop: nat)
    requires start <= stop
    ensures MegaBlocks(start, stop) * MEGA <= stop - start
  {
    var first, last := (start + MEGA - 1) / MEGA, stop / MEGA;
    assert first * MEGA >= start && last * MEGA <= stop;
  }

  lemma BlocksBetween(start: nat, stop: nat)
    requires start <= stop
    ensures var q, r, last := start / MEGA, start % MEGA, stop / MEGA;
            MegaBlocks(start, stop) == if r == 0 then last - q else if last > q then last - q - 1 else 0
  {
    var q, r := start / MEGA, start % MEGA;
    assert start == q * MEGA + r && stop / MEGA >= q;
    if r > 0 {
      assert start + MEGA - 1 == (q + 1) * MEGA + (r - 1);
    }
  }

  /** For every request: the small pages of the first phase fit the table they are
      written to if and only if the request starts at a 2 MiB boundary, or the part
      before the first 1 GiB boundary ends at one or in the window it starts in. */
  lemma SmallPagesFit(start: nat, size: nat)
    requires size > 0
    ensures var stop := HeadEnd(start, size);
            start % MEGA + Split(start, size).pre0 <= MEGA
            <==> start % MEGA == 0 || stop % MEGA == 0 || start / MEGA == (stop - 1) / MEGA
  {
    var stop := HeadEnd(start, size);
    var q, r, last, t := start / MEGA, start % MEGA, stop / MEGA, stop % MEGA;
    HeadSmall(start, size);
    BlocksBetween(start, stop);
    assert start == q * MEGA + r && stop == last * MEGA + t;
    if r > 0 {
      LastWindow(start, stop);
    }
  }

  lemma LastWindow(start: nat, stop: nat)
    requires start <= stop && start % MEGA > 0
    ensures start / MEGA == (stop - 1) / MEGA <==> stop <= (start / MEGA + 1) * MEGA
  {
  }

  /** Two pages across a 2 MiB boundary overrun the table of the first phase. */
  lemma CrossingOverruns()
    ensures Split(1023, 2).pre0 == 2 && 1023 % MEGA + Split(1023, 2).pre0 > MEGA
  {
  }
}
