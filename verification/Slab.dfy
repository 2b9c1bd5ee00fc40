/**
 The block allocator of memory/allocator.c for size classes that fit their first
 data page, and the bump allocator beside it.
 */
module Slab {
  import opened Machine
  import opened Sets
  import opened Digits
  import Pager

  const WORD := 64
  const HEADER := 64
  /** (KERNEL_PAGE_SIZE - 8) / 8 */
  const INDEX_ENTRIES := 511
  const CLASSES := 12

  /** 1 << c */
  function SizeOf(c: nat): (n: nat)
    requires c < CLASSES
    ensures 1 <= n <= 2048
  {
    if c == 0 then 1 else if c == 1 then 2 else if c == 2 then 4 else if c == 3 then 8
    else if c == 4 then 16 else if c == 5 then 32 else if c == 6 then 64 else if c == 7 then 128
    else if c == 8 then 256 else if c == 9 then 512 else if c == 10 then 1024 else 2048
  }

  /** The class of a request: the smallest whose blocks hold it; none beyond half a
      page. */
  function ClassOf(size: u64): (c: nat)
    requires 0 < size <= 2048
    ensures c < CLASSES && SizeOf(c) >= size && (c > 0 ==> SizeOf(c - 1) < size)
  {
    if size == 1 then 0 else if size <= 2 then 1 else if size <= 4 then 2 else if size <= 8 then 3
    else if size <= 16 then 4 else if size <= 32 then 5 else if size <= 64 then 6 else if size <= 128 then 7
    else if size <= 256 then 8 else if size <= 512 then 9 else if size <= 1024 then 10 else 11
  }

  // ---- rounding a request ----

  const TWO_TO_63 := 0x8000_0000_0000_0000

  /** pow2_size: the next power of two, shifted out of the word for the largest
      requests. */
  function Rounded(size: u64): u64
    requires size > 0
  {
    var pow2 := Pow2(HighestOne(size));
    if pow2 != size then Add64(pow2, pow2) else pow2
  }

  lemma SizeIsPower(c: nat)
    requires c < CLASSES
    ensures SizeOf(c) == Pow2(c) && (c > 0 ==> SizeOf(c - 1) == Pow2(c - 1))
  {
    if c > 0 {
      SizeIsPower(c - 1);
    }
  }

  lemma RoundedIs(size: u64, k: nat)
    requires size > 0 && Pow2(k) <= size < Pow2(k + 1)
    ensures Rounded(size) == if size == Pow2(k) then size else if Pow2(k + 1) < TWO_TO_64 then Pow2(k + 1) else Pow2(k + 1) - TWO_TO_64
  {
    HighestUnique(size, k);
  }

  lemma RoundedSmall(size: u64)
    requires 0 < size <= 2048
    ensures Rounded(size) == SizeOf(ClassOf(size))
  {
    var c := ClassOf(size);
    SizeIsPower(c);
    if size == Pow2(c) {
      RoundedIs(size, c);
    } else {
      RoundedIs(size, c - 1);
    }
  }

  lemma Power63()
    ensures Pow2(63) == TWO_TO_63 && Pow2(64) == TWO_TO_64 && Pow2(11) == 2048 && Pow2(12) == 4096
  {
    Pow53();
    PowStep(50);
    assert Pow2(53) == 2 * Pow2(52) && Pow2(52) == 2 * Pow2(51) && Pow2(51) == 2 * Pow2(50);
    assert Pow2(64) == 2 * Pow2(63);
  }

  lemma Between(size: u64, k: nat)
    requires 2048 < size < TWO_TO_63 && Pow2(k) <= size < Pow2(k + 1)
    ensures 11 <= k < 63 && (size == Pow2(k) ==> size >= PAGE_SIZE)
  {
    Power63();
    if k >= 12 {
      PowMonotone(12, k);
    }
    if k >= 63 {
      PowMonotone(63, k);
    }
    if k < 11 {
      PowMonotone(k + 1, 11);
    }
  }

  lemma RoundedLarge(size: u64)
    requires size > 2048
    ensures size <= TWO_TO_63 ==> Rounded(size) >= PAGE_SIZE
    ensures size > TWO_TO_63 ==> Rounded(size) == 0
  {
    Power63();
    if size >= TWO_TO_63 {
      RoundedIs(size, 63);
    } else {
      var k := HighestOne(size);
      RoundedIs(size, k);
      Between(size, k);
      PowMonotone(k + 1, 63);
      PowMonotone(12, k + 1);
    }
  }

  /** max_cnt_per_page */
  function Count(c: nat): (n: nat)
    requires c < CLASSES
    ensures n * SizeOf(c) <= PAGE_SIZE - HEADER < (n + 1) * SizeOf(c)
    ensures 1 <= n <= 4032
  {
    if c == 0 then 4032 else if c == 1 then 2016 else if c == 2 then 1008 else if c == 3 then 504
    else if c == 4 then 252 else if c == 5 then 126 else if c == 6 then 63 else if c == 7 then 31
    else if c == 8 then 15 else if c == 9 then 7 else if c == 10 then 3 else 1
  }

  /** A class: its data page, 0 before the first allocation, and the bits of its
      index page from entry 2 on. */
  datatype Class = Class(data: nat, bits: seq<bool>)

  const INDEX_BITS := (INDEX_ENTRIES - 2) * WORD

  /** What a data page says about itself. */
  datatype Header = Header(size: nat, number: nat, class': nat)

  ghost predicate Live(cs: seq<Class>, c: nat, slot: nat) {
    c < |cs| && slot < |cs[c].bits| && cs[c].bits[slot]
  }

  function BlockAddress(data: nat, c: nat, slot: nat): nat
    requires c < CLASSES
  {
    data + HEADER + SizeOf(c) * slot
  }

  ghost predicate LowestFree(cs: seq<Class>, c: nat, slot: nat)
    requires c < CLASSES
  {
    slot < Count(c) && !Live(cs, c, slot) && forall k: nat :: k < slot ==> Live(cs, c, k)
  }

  ghost predicate Full(cs: seq<Class>, c: nat)
    requires c < CLASSES
  {
    forall k: nat :: k < Count(c) ==> Live(cs, c, k)
  }

  predicate ClassOk(k: Class) {
    |k.bits| == INDEX_BITS && k.data % PAGE_SIZE == 0
  }

  ghost predicate ClassesOk(cs: seq<Class>, headers: map<nat, Header>) {
    && |cs| == CLASSES
    && (forall c :: 0 <= c < CLASSES ==> ClassOk(cs[c]))
    && (forall c :: 0 <= c < CLASSES && cs[c].data != 0 ==>
          cs[c].data in headers && headers[cs[c].data] == Header(SizeOf(c), 0, c))
    && (forall c: nat, slot: nat :: c < CLASSES && Live(cs, c, slot) ==> slot < Count(c) && cs[c].data != 0)
  }

  // ---- blocks ----

  /** A block lies in its page, clear of the page's header. */
  lemma BlockInPage(data: nat, c: nat, slot: nat)
    requires c < CLASSES && slot < Count(c)
    ensures data + HEADER <= BlockAddress(data, c, slot)
    ensures BlockAddress(data, c, slot) + SizeOf(c) <= data + PAGE_SIZE
  {
  }

  /** Different slots of a class do not overlap. */
  lemma SlotsApart(data: nat, c: nat, s: nat, t: nat)
    requires c < CLASSES && s < t
    ensures BlockAddress(data, c, s) + SizeOf(c) <= BlockAddress(data, c, t)
  {
  }

  /** Live blocks of all classes are pairwise disjoint and inside their pages. */
  lemma BlocksApart(cs: seq<Class>, headers: map<nat, Header>, c: nat, s: nat, d: nat, t: nat)
    requires ClassesOk(cs, headers) && Live(cs, c, s) && Live(cs, d, t) && (c != d || s != t)
    ensures var a, b := BlockAddress(cs[c].data, c, s), BlockAddress(cs[d].data, d, t);
            && (a + SizeOf(c) <= b || b + SizeOf(d) <= a)
            && cs[c].data + HEADER <= a && a + SizeOf(c) <= cs[c].data + PAGE_SIZE
  {
    BlockInPage(cs[c].data, c, s);
    BlockInPage(cs[d].data, d, t);
    if c == d {
      if s < t {
        SlotsApart(cs[c].data, c, s, t);
      } else {
        SlotsApart(cs[c].data, c, t, s);
      }
    } else {
      assert ClassOk(cs[c]) && ClassOk(cs[d]);
      assert headers[cs[c].data].class' == c && headers[cs[d].data].class' == d;
      PagesApart(cs[c].data, cs[d].data);
    }
  }

  lemma PagesApart(a: nat, b: nat)
    requires a % PAGE_SIZE == 0 && b % PAGE_SIZE == 0 && a != b
    ensures a + PAGE_SIZE <= b || b + PAGE_SIZE <= a
  {
    var p, q := a / PAGE_SIZE, b / PAGE_SIZE;
    assert a == p * PAGE_SIZE && b == q * PAGE_SIZE;
  }

  /** From a block's address: its page, by rounding down, and its slot, by
      dividing. */
  lemma SlotRecovered(data: nat, c: nat, slot: nat)
    requires c < CLASSES && slot < Count(c) && data % PAGE_SIZE == 0
    ensures var a := BlockAddress(data, c, slot);
            a / PAGE_SIZE * PAGE_SIZE == data && (a - data - HEADER) / SizeOf(c) == slot
  {
    BlockInPage(data, c, slot);
    RoundsDown(data, BlockAddress(data, c, slot) - data);
    Divides(c, slot);
  }

  lemma RoundsDown(data: nat, offset: nat)
    requires data % PAGE_SIZE == 0 && offset < PAGE_SIZE
    ensures (data + offset) / PAGE_SIZE * PAGE_SIZE == data
  {
  }

  lemma Divides(c: nat, slot: nat)
    requires c < CLASSES
    ensures SizeOf(c) * slot / SizeOf(c) == slot
  {
  }

  /** ROUND_MOD_UP(n, 64) */
  function RoundUp64(n: nat): nat {
    (n + 63) / 64 * 64
  }

  // ---- the allocator ----

  /** `Undefined` is a division by zero, `Spilled` what lies beyond the first data
      page of a class. */
  datatype Result = Block(address: nat) | Panic | Undefined | Spilled

  class SlabAllocator {
    var classes: seq<Class>
    var lowest: seq<nat>
    var headers: map<nat, Header>

    ghost predicate Valid()
      reads this
    {
      && ClassesOk(classes, headers)
      && |lowest| == CLASSES && forall c :: 0 <= c < CLASSES ==> lowest[c] < Count(c)
    }

    /** allocator_init */
    constructor ()
      ensures Valid() && forall c: nat, slot: nat :: !Live(classes, c, slot)
    {
      classes := seq(CLASSES, _ => Class(0, seq(INDEX_BITS, _ => false)));
      lowest := seq(CLASSES, _ => 0);
      headers := map[];
    }

    /** fetch_and_confirm_data_page: the class's first data page, a fresh one with
        its header if there is none yet. */
    method DataPage(c: nat) returns (data: nat)
      requires Valid() && c < CLASSES
      modifies this`classes, this`headers
      ensures Valid()
      ensures data != 0 && classes == old(classes)[c := old(classes)[c].(data := data)]
      ensures old(classes)[c].data != 0 ==> data == old(classes)[c].data
      ensures old(classes)[c].data == 0 ==> data !in old(headers)
    {
      data := classes[c].data;
      if data == 0 {
        FreshPage(headers.Keys);
        data :| data != 0 && data % PAGE_SIZE == 0 && data !in headers;
        headers := headers[data := Header(SizeOf(c), 0, c)];
      }
      SetData(classes, headers, c, data);
      classes := classes[c := classes[c].(data := data)];
    }

    /** The scan over the bitmap of the first data page. */
    method Scan(c: nat) returns (found: bool, slot: nat)
      requires Valid() && c < CLASSES
      ensures found ==> LowestFree(classes, c, slot)
      ensures !found ==> Full(classes, c)
    {
      assert ClassOk(classes[c]);
      var bits, count := classes[c].bits, Count(c);
      var i, entry := 0, 2;
      while i < count
        invariant entry == 2 + i
        invariant forall k :: 0 <= k < i * WORD && k < count ==> bits[k]
      {
        if entry >= INDEX_ENTRIES {
          // the scan moves on to another index page
          return false, 0;
        }
        if !Pager.FullWord(bits, i * WORD) {
          slot := Pager.LowestClear(bits, i * WORD, i * WORD);
          if slot < count {
            return true, slot;
          }
        }
        i, entry := i + 1, entry + 1;
      }
      return false, 0;
    }

    /** mem_alloc: the lowest free slot of the smallest class that holds the
        request. Requests of nothing and of more than half a page are refused, save
        that the largest ones, whose rounded size leaves the word, pass the guard and
        reach a division by zero. A class whose first data page is full leaves what
        is modelled. The slot found is never one in use already. */
    method Alloc(size: u64) returns (r: Result, ghost slot: nat)
      requires Valid()
      modifies this
      ensures Valid()
      ensures r.Panic? <==> size == 0 || 2048 < size <= TWO_TO_63
      ensures r.Undefined? <==> size > TWO_TO_63
      ensures 0 < size <= 2048 ==>
                var c := ClassOf(size);
                && (r.Spilled? <==> Full(old(classes), c))
                && (r.Block? ==>
                      && LowestFree(old(classes), c, slot)
                      && r.address == BlockAddress(classes[c].data, c, slot)
                      && classes == Taken(old(classes), c, slot, classes[c].data)
                      && (old(classes)[c].data != 0 ==> classes[c].data == old(classes)[c].data))
    {
      slot := 0;
      if size == 0 {
        return Panic, slot;
      }
      var pow2 := Rounded(size);
      if size > 2048 {
        RoundedLarge(size);
      } else {
        RoundedSmall(size);
      }
      if pow2 >= PAGE_SIZE {
        return Panic, slot;
      }
      if pow2 == 0 {
        return Undefined, slot;
      }
      r, slot := AllocClass(ClassOf(size));
    }

    /** The rest of mem_alloc, in the request's class. */
    method AllocClass(c: nat) returns (r: Result, ghost slot: nat)
      requires Valid() && c < CLASSES
      modifies this
      ensures Valid() && (r.Block? || r.Spilled?)
      ensures r.Spilled? <==> Full(old(classes), c)
      ensures r.Block? ==>
                && LowestFree(old(classes), c, slot)
                && r.address == BlockAddress(classes[c].data, c, slot)
                && classes == Taken(old(classes), c, slot, classes[c].data)
                && (old(classes)[c].data != 0 ==> classes[c].data == old(classes)[c].data)
    {
      // the row the scan starts with
      assert lowest[c] / Count(c) == 0;
      var data := DataPage(c);
      var found, local := Scan(c);
      slot := local;
      SameBits(old(classes), classes, c, data, local);
      if !found {
        return Spilled, slot;
      }
      TakeSlot(classes, headers, c, local);
      var acquired := classes[c].bits[local];
      classes := classes[c := Class(data, classes[c].bits[local := true])];
      if lowest[c] < local {
        lowest := lowest[c := local];
      }
      r := if acquired then Panic else Block(data + SizeOf(c) * local + HEADER);
    }

    /** mem_free: clears exactly the bit of the block at the address; a block that
        is not live is refused. */
    method Free(location: nat, ghost c: nat, ghost slot: nat) returns (halted: bool)
      requires Valid() && c < CLASSES && slot < Count(c) && classes[c].data != 0
      requires location == BlockAddress(classes[c].data, c, slot)
      modifies this`classes, this`lowest
      ensures Valid()
      ensures halted <==> !Live(old(classes), c, slot)
      ensures halted ==> classes == old(classes)
      ensures !halted ==> classes == Given(old(classes), c, slot)
    {
      assert ClassOk(classes[c]);
      SlotRecovered(classes[c].data, c, slot);
      var page := location / PAGE_SIZE * PAGE_SIZE;
      var header := headers[page];
      var number := (location - page - HEADER) / header.size;
      var entry := number / WORD + header.number * (RoundUp64(Count(header.class')) / 8 + 1) + 1;
      var table, position := entry / INDEX_ENTRIES, entry % INDEX_ENTRIES + 1;
      assert table == 0 && (position - 2) * WORD + number % WORD == number;
      var bit := (position - 2) * WORD + number % WORD;
      if !classes[header.class'].bits[bit] {
        return true;
      }
      GiveSlot(classes, headers, c, slot);
      classes := classes[header.class' := classes[header.class'].(bits := classes[header.class'].bits[bit := false])];
      if lowest[header.class'] > number {
        lowest := lowest[header.class' := number];
      }
      return false;
    }
  }

  ghost function Taken(cs: seq<Class>, c: nat, slot: nat, data: nat): seq<Class>
    requires c < |cs| && slot < |cs[c].bits|
  {
    cs[c := Class(data, cs[c].bits[slot := true])]
  }

  ghost function Given(cs: seq<Class>, c: nat, slot: nat): seq<Class>
    requires c < |cs| && slot < |cs[c].bits|
  {
    cs[c := cs[c].(bits := cs[c].bits[slot := false])]
  }

  /** Freed right after it was allocated, a block leaves the free slots as they
      were. */
  lemma TakenThenGiven(cs: seq<Class>, c: nat, slot: nat, data: nat, k: nat, t: nat)
    requires c < |cs| && slot < |cs[c].bits| && !Live(cs, c, slot)
    ensures Live(Given(Taken(cs, c, slot, data), c, slot), k, t) <==> Live(cs, k, t)
  {
  }

  lemma FreshPage(used: set<nat>)
    ensures exists a: nat :: a != 0 && a % PAGE_SIZE == 0 && a !in used
  {
    var top := Bound(used);
    var a := (top + 1) * PAGE_SIZE;
    assert a != 0 && a % PAGE_SIZE == 0 && a !in used;
  }

  lemma SetData(cs: seq<Class>, headers: map<nat, Header>, c: nat, data: nat)
    requires |cs| == CLASSES && c < CLASSES && data != 0 && data % PAGE_SIZE == 0
    requires forall k :: 0 <= k < CLASSES ==> ClassOk(cs[k])
    requires forall k :: 0 <= k < CLASSES && cs[k].data != 0 ==> cs[k].data in headers && headers[cs[k].data] == Header(SizeOf(k), 0, k)
    requires forall k: nat, slot: nat :: k < CLASSES && Live(cs, k, slot) ==> slot < Count(k) && cs[k].data != 0
    requires data in headers && headers[data] == Header(SizeOf(c), 0, c)
    ensures ClassesOk(cs[c := cs[c].(data := data)], headers)
  {
    var out := cs[c := cs[c].(data := data)];
    forall k: nat, slot: nat | k < CLASSES && Live(out, k, slot)
      ensures slot < Count(k) && out[k].data != 0
    {
      assert Live(cs, k, slot);
    }
  }

  lemma SameBits(cs: seq<Class>, out: seq<Class>, c: nat, data: nat, slot: nat)
    requires |cs| == CLASSES && c < CLASSES && out == cs[c := cs[c].(data := data)]
    ensures LowestFree(out, c, slot) <==> LowestFree(cs, c, slot)
    ensures Full(out, c) <==> Full(cs, c)
  {
    assert forall k: nat :: Live(out, c, k) <==> Live(cs, c, k);
  }

  lemma TakeSlot(cs: seq<Class>, headers: map<nat, Header>, c: nat, slot: nat)
    requires ClassesOk(cs, headers) && c < CLASSES && slot < Count(c) && cs[c].data != 0
    ensures slot < |cs[c].bits| && ClassesOk(cs[c := Class(cs[c].data, cs[c].bits[slot := true])], headers)
  {
    assert ClassOk(cs[c]);
    var out := cs[c := Class(cs[c].data, cs[c].bits[slot := true])];
    forall k: nat, s: nat | k < CLASSES && Live(out, k, s)
      ensures s < Count(k) && out[k].data != 0
    {
      assert (k == c && s == slot) || Live(cs, k, s);
    }
  }

  lemma GiveSlot(cs: seq<Class>, headers: map<nat, Header>, c: nat, slot: nat)
    requires ClassesOk(cs, headers) && c < CLASSES && slot < Count(c)
    ensures slot < |cs[c].bits| && ClassesOk(Given(cs, c, slot), headers)
  {
    assert ClassOk(cs[c]);
    var out := Given(cs, c, slot);
    forall k: nat, s: nat | k < CLASSES && Live(out, k, s)
      ensures s < Count(k) && out[k].data != 0
    {
      assert Live(cs, k, s);
    }
  }

  // ---- the bump allocator ----

  datatype Span = Span(start: nat, size: nat)

  predicate Apart(s: Span, t: Span) {
    s.start + s.size <= t.start || t.start + t.size <= s.start
  }

  function PageOf(s: Span): nat {
    s.start / PAGE_SIZE * PAGE_SIZE
  }

  /** A block is aligned to 8 bytes and inside a single page. */
  predicate SpanOk(s: Span) {
    s.start % 8 == 0 && s.start + s.size <= PageOf(s) + PAGE_SIZE
  }

  ghost predicate AllApart(spans: seq<Span>) {
    forall i, j :: 0 <= i < j < |spans| ==> Apart(spans[i], spans[j])
  }

  /** Every block so far ends before the free part of the current page or lies in
      another page taken earlier. */
  ghost predicate BelowMark(spans: seq<Span>, pages: set<nat>, page: nat, count: nat) {
    forall i :: 0 <= i < |spans| ==>
      && SpanOk(spans[i]) && PageOf(spans[i]) in pages
      && (PageOf(spans[i]) == page ==> spans[i].start + spans[i].size <= page + count)
  }

  /** The next block is apart from all earlier ones. */
  lemma NextApart(spans: seq<Span>, pages: set<nat>, page: nat, count: nat, size: nat)
    requires BelowMark(spans, pages, page, count) && AllApart(spans)
    requires page % PAGE_SIZE == 0 && count + size <= PAGE_SIZE && count < PAGE_SIZE && count % 8 == 0 && page in pages
    ensures AllApart(spans + [Span(page + count, size)])
    ensures BelowMark(spans + [Span(page + count, size)], pages, page, RoundUp8(count + size))
  {
    var next := Span(page + count, size);
    RoundsDown(page, count);
    AlignedSpan(page, count);
    forall i | 0 <= i < |spans|
      ensures Apart(spans[i], next)
    {
      if PageOf(spans[i]) != page {
        RoundedPage(spans[i].start);
        PagesApart(PageOf(spans[i]), page);
      }
    }
  }

  function RoundUp8(n: nat): (m: nat)
    ensures n <= m < n + 8 && m % 8 == 0
  {
    (n + 7) / 8 * 8
  }

  lemma AlignedSpan(page: nat, count: nat)
    requires page % PAGE_SIZE == 0 && count % 8 == 0
    ensures (page + count) % 8 == 0
  {
    var p, c := page / PAGE_SIZE, count / 8;
    assert page + count == 8 * (512 * p + c);
  }

  lemma RoundedPage(start: nat)
    ensures (start / PAGE_SIZE * PAGE_SIZE) % PAGE_SIZE == 0 && start / PAGE_SIZE * PAGE_SIZE <= start
  {
  }

  /** Rounding a request or the end of its block is the same. */
  lemma RoundsSame(count: nat, size: nat)
    requires count % 8 == 0
    ensures RoundUp8(count + size) == count + RoundUp8(size)
    ensures count + size <= PAGE_SIZE ==> RoundUp8(count + size) <= PAGE_SIZE
  {
  }

  class BumpAllocator {
    var page: nat
    var count: nat
    ghost var pages: set<nat>
    ghost var given: seq<Span>

    ghost predicate Valid()
      reads this
    {
      && page % PAGE_SIZE == 0 && page in pages && count % 8 == 0 && count <= PAGE_SIZE
      && BelowMark(given, pages, page, count) && AllApart(given)
    }

    constructor (page: nat)
      requires page % PAGE_SIZE == 0
      ensures Valid() && given == [] && pages == {page}
    {
      this.page, count := page, 0;
      pages, given := {page}, [];
    }

    /** bump_alloc, given the page that pg_alloc would return: over every run of
        requests of up to 4096 bytes the blocks are pairwise disjoint, aligned to 8
        bytes and each in a single page. */
    method Alloc(size: nat, fresh': nat) returns (r: Outcome<nat>)
      requires Valid() && fresh' % PAGE_SIZE == 0 && fresh' !in pages
      modifies this
      ensures Valid() && old(pages) <= pages <= old(pages) + {fresh'}
      ensures r.Halt? <==> size > PAGE_SIZE
      ensures r.Halt? ==> given == old(given)
      ensures r.Done? ==> given == old(given) + [Span(r.value, size)]
    {
      if size > PAGE_SIZE {
        return Halt;
      }
      if count + size >= PAGE_SIZE {
        NewPage(given, pages, page, count, fresh');
        page, count, pages := fresh', 0, pages + {fresh'};
      }
      var start := Place(size);
      r := Done(start);
    }

    /** The end of bump_alloc: the block, and the mark moved behind it. */
    method Place(size: nat) returns (start: nat)
      requires Valid() && count < PAGE_SIZE && count + size <= PAGE_SIZE
      modifies this`count, this`given
      ensures Valid() && given == old(given) + [Span(start, size)]
    {
      NextApart(given, pages, page, count, size);
      RoundsSame(count, size);
      start := page + count;
      given := given + [Span(start, size)];
      count := count + RoundUp8(size);
    }
  }

  lemma NewPage(spans: seq<Span>, pages: set<nat>, page: nat, count: nat, next: nat)
    requires BelowMark(spans, pages, page, count) && next !in pages
    ensures BelowMark(spans, pages + {next}, next, 0)
  {
  }
}
