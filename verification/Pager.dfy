/**
 The page allocator of memory/pager.c: one bitmap per memory region, scanned in
 words of 64 bits from a moving hint.
 */
module Pager {
  import opened Machine

  const WORD := 64
  const PAGE_WORDS := 512

  /** A region: the address of its first page, its number of pages, and one bit per
      page, set while the page is in use. */
  datatype Region = Region(base: nat, pages: nat, bits: seq<bool>)

  /** The page after the last one that pg_alloc looks at: only whole words are. */
  function Scanned(r: Region): (n: nat)
    ensures n <= r.pages
  {
    r.pages / WORD * WORD
  }

  predicate RegionOk(r: Region) {
    && r.base > 0 && r.base % PAGE_SIZE == 0
    && |r.bits| >= r.pages
    // a page number times the page size fits a signed 32-bit product
    && r.pages <= 0x8_0000
  }

  ghost predicate RegionsOk(rs: seq<Region>) {
    forall i :: 0 <= i < |rs| ==> RegionOk(rs[i])
  }

  /** The pages of different regions do not overlap; the regions may be listed in
      any order. */
  ghost predicate Disjoint(rs: seq<Region>) {
    forall i, k :: 0 <= i < |rs| && 0 <= k < |rs| && i != k ==> Apart(rs[i], rs[k])
  }

  predicate Apart(r: Region, s: Region) {
    r.base != s.base && (r.base < s.base ==> r.base + PAGE_SIZE * r.pages <= s.base)
  }

  // ---- what allocation means ----

  ghost predicate IsScanned(rs: seq<Region>, i: nat, p: nat) {
    i < |rs| && p < Scanned(rs[i]) && p < |rs[i].bits|
  }

  ghost predicate InUse(rs: seq<Region>, i: nat, p: nat) {
    i < |rs| && p < |rs[i].bits| && rs[i].bits[p]
  }

  predicate Before(i: nat, p: nat, k: nat, q: nat) {
    i < k || (i == k && p < q)
  }

  /** Every scanned page before (k, q) is in use. */
  ghost predicate UsedBefore(rs: seq<Region>, k: nat, q: nat) {
    forall i, p :: IsScanned(rs, i, p) && Before(i, p, k, q) ==> InUse(rs, i, p)
  }

  ghost predicate AllUsed(rs: seq<Region>) {
    forall i, p :: IsScanned(rs, i, p) ==> InUse(rs, i, p)
  }

  /** The first free page in the order of regions and pages. */
  ghost predicate LowestFree(rs: seq<Region>, i: nat, p: nat) {
    IsScanned(rs, i, p) && !InUse(rs, i, p) && UsedBefore(rs, i, p)
  }

  /** There is at most one. */
  lemma LowestUnique(rs: seq<Region>, i: nat, p: nat, k: nat, q: nat)
    requires LowestFree(rs, i, p) && LowestFree(rs, k, q)
    ensures i == k && p == q
  {
    assert Before(i, p, k, q) || Before(k, q, i, p) || (i == k && p == q);
  }

  function SetBit(rs: seq<Region>, i: nat, p: nat, b: bool): (out: seq<Region>)
    requires i < |rs| && p < |rs[i].bits|
    ensures |out| == |rs|
  {
    rs[i := rs[i].(bits := rs[i].bits[p := b])]
  }

  function Address(rs: seq<Region>, i: nat, p: nat): nat
    requires i < |rs|
  {
    rs[i].base + p * PAGE_SIZE
  }

  /** Allocated and then freed, a page leaves the bitmaps as they were. */
  lemma SetThenClear(rs: seq<Region>, i: nat, p: nat)
    requires i < |rs| && p < |rs[i].bits| && !rs[i].bits[p]
    ensures SetBit(SetBit(rs, i, p, true), i, p, false) == rs
  {
    assert rs[i].bits[p := true][p := false] == rs[i].bits;
    assert rs[i].(bits := rs[i].bits[p := true]).(bits := rs[i].bits) == rs[i];
  }

  lemma SetKeeps(rs: seq<Region>, i: nat, p: nat, b: bool)
    requires i < |rs| && p < |rs[i].bits|
    ensures RegionsOk(rs) ==> RegionsOk(SetBit(rs, i, p, b))
    ensures Disjoint(rs) ==> Disjoint(SetBit(rs, i, p, b))
    ensures forall k: nat, q: nat :: IsScanned(SetBit(rs, i, p, b), k, q) <==> IsScanned(rs, k, q)
    ensures forall k: nat, q: nat :: InUse(SetBit(rs, i, p, b), k, q) <==> if k == i && q == p then b else InUse(rs, k, q)
  {
    var out := SetBit(rs, i, p, b);
    forall k: nat, q: nat
      ensures IsScanned(out, k, q) <==> IsScanned(rs, k, q)
      ensures InUse(out, k, q) <==> if k == i && q == p then b else InUse(rs, k, q)
    {
    }
  }

  /** Taking the lowest free page moves the hint to it. */
  lemma HintAfterAlloc(rs: seq<Region>, i: nat, p: nat)
    requires LowestFree(rs, i, p)
    ensures UsedBefore(SetBit(rs, i, p, true), i, p)
  {
    SetKeeps(rs, i, p, true);
  }

  /** Freeing a page keeps the hint sound if it moves to the page whenever the page
      lies before it. */
  lemma HintAfterFree(rs: seq<Region>, k: nat, q: nat, i: nat, p: nat)
    requires UsedBefore(rs, k, q) && i < |rs| && p < |rs[i].bits|
    ensures Before(i, p, k, q) ==> UsedBefore(SetBit(rs, i, p, false), i, p)
    ensures !Before(i, p, k, q) ==> UsedBefore(SetBit(rs, i, p, false), k, q)
  {
    SetKeeps(rs, i, p, false);
  }

  // ---- finding a page's region ----

  /** The region the search settles on: the one with the greatest base that is not
      above the address, the first of them if there are several. */
  ghost predicate IsClosest(rs: seq<Region>, address: nat, k: nat) {
    && k < |rs| && 0 < rs[k].base <= address
    && (forall i :: 0 <= i < |rs| && rs[i].base <= address ==> rs[i].base <= rs[k].base)
    && (forall i :: 0 <= i < k && rs[i].base <= address ==> rs[i].base < rs[k].base)
  }

  /** For disjoint regions in any order the search finds the region a page belongs
      to, from any address inside the page, and the division its number. */
  lemma FindsRegion(rs: seq<Region>, i: nat, p: nat, offset: nat, k: nat)
    requires RegionsOk(rs) && Disjoint(rs) && i < |rs| && p < rs[i].pages && offset < PAGE_SIZE
    requires IsClosest(rs, Address(rs, i, p) + offset, k)
    ensures k == i && (Address(rs, i, p) + offset - rs[k].base) / PAGE_SIZE == p
  {
    assert k != i ==> Apart(rs[i], rs[k]);
  }

  /** Freeing an allocated page by its address clears exactly the bit that the
      allocation set, and the bitmaps are as they were before. */
  lemma AllocThenFree(rs: seq<Region>, i: nat, p: nat, k: nat)
    requires RegionsOk(rs) && Disjoint(rs) && LowestFree(rs, i, p)
    requires IsClosest(SetBit(rs, i, p, true), Address(rs, i, p), k)
    ensures var page := (Address(rs, i, p) - rs[k].base) / PAGE_SIZE;
            && k == i && page == p && page < rs[k].pages
            && InUse(SetBit(rs, i, p, true), k, page)
            && SetBit(SetBit(rs, i, p, true), k, page, false) == rs
  {
    SetKeeps(rs, i, p, true);
    FindsRegion(SetBit(rs, i, p, true), i, p, 0, k);
    SetThenClear(rs, i, p);
  }

  /** An allocated page overlaps no page in use. */
  lemma AllocApart(rs: seq<Region>, i: nat, p: nat, k: nat, q: nat)
    requires RegionsOk(rs) && Disjoint(rs) && LowestFree(rs, i, p) && InUse(rs, k, q) && q < rs[k].pages
    ensures Address(rs, i, p) + PAGE_SIZE <= Address(rs, k, q) || Address(rs, k, q) + PAGE_SIZE <= Address(rs, i, p)
    ensures Address(rs, i, p) % PAGE_SIZE == 0
  {
    PagesApart(rs, i, p, k, q);
  }

  /** Pages in use are pairwise disjoint: different pages are at least a page
      apart. */
  lemma PagesApart(rs: seq<Region>, i: nat, p: nat, k: nat, q: nat)
    requires RegionsOk(rs) && Disjoint(rs)
    requires i < |rs| && p < rs[i].pages && k < |rs| && q < rs[k].pages && (i != k || p != q)
    ensures Address(rs, i, p) + PAGE_SIZE <= Address(rs, k, q) || Address(rs, k, q) + PAGE_SIZE <= Address(rs, i, p)
    ensures Address(rs, i, p) % PAGE_SIZE == 0
  {
    Aligned(rs[i].base, p);
    if i != k {
      assert Apart(rs[i], rs[k]) && Apart(rs[k], rs[i]);
    }
  }

  lemma Aligned(base: nat, p: nat)
    requires base % PAGE_SIZE == 0
    ensures (base + p * PAGE_SIZE) % PAGE_SIZE == 0
  {
  }

  // ---- words ----

  /** The word of 64 bits from `start` on is all ones. */
  predicate FullWord(bits: seq<bool>, start: nat)
    requires start + WORD <= |bits|
  {
    forall p :: start <= p < start + WORD ==> bits[p]
  }

  /** __builtin_ctzl of the inverted word: its lowest zero. */
  function LowestClear(bits: seq<bool>, start: nat, p: nat): (k: nat)
    requires start + WORD <= |bits| && start <= p < start + WORD
    requires !FullWord(bits, start) && forall q :: start <= q < p ==> bits[q]
    ensures p <= k < start + WORD && !bits[k] && forall q :: start <= q < k ==> bits[q]
    decreases start + WORD - p
  {
    if !bits[p] then p else LowestClear(bits, start, p + 1)
  }

  class PageAllocator {
    var regions: seq<Region>
    /** the hint */
    var lastRegion: nat
    var lastPage: nat
    /** contents of pages by address, as 64-bit words */
    var memory: map<nat, seq<u64>>

    ghost predicate Valid()
      reads this
    {
      RegionsOk(regions) && Disjoint(regions) && UsedBefore(regions, lastRegion, lastPage)
    }

    /** A fresh allocator has all its pages free and the hint at the first one. */
    constructor (regions: seq<Region>)
      requires RegionsOk(regions) && Disjoint(regions)
      requires forall i, p :: 0 <= i < |regions| && 0 <= p < |regions[i].bits| ==> !regions[i].bits[p]
      ensures Valid() && this.regions == regions
    {
      this.regions := regions;
      lastRegion, lastPage := 0, 0;
      memory := map[];
    }

    /** The inner loop of pg_alloc: the lowest free page of a region from a word
        on. */
    method ScanRegion(i: nat, word: nat) returns (found: bool, page: nat)
      requires i < |regions| && RegionOk(regions[i])
      requires forall p :: 0 <= p < word * WORD && p < Scanned(regions[i]) ==> regions[i].bits[p]
      ensures found ==>
                && page < Scanned(regions[i]) && !regions[i].bits[page]
                && forall p :: 0 <= p < page ==> regions[i].bits[p]
      ensures !found ==> forall p :: 0 <= p < Scanned(regions[i]) ==> regions[i].bits[p]
    {
      var r := regions[i];
      var words := r.pages / WORD;
      var j := word;
      while j < words
        invariant forall p :: 0 <= p < j * WORD && p < Scanned(r) ==> r.bits[p]
      {
        WordFits(r, j);
        if !FullWord(r.bits, j * WORD) {
          page := LowestClear(r.bits, j * WORD, j * WORD);
          return true, page;
        }
        NextWord(j);
        j := j + 1;
      }
      ScannedAll(r, j);
      return false, 0;
    }

    /** pg_alloc: the lowest free page over all regions, zeroed; it fails only when
        every page it looks at is in use. */
    method Alloc() returns (r: Outcome<nat>, ghost i: nat, ghost p: nat)
      requires Valid()
      modifies this
      ensures Valid()
      ensures r.Halt? <==> AllUsed(old(regions))
      ensures r.Halt? ==> regions == old(regions)
      ensures r.Done? ==>
                && LowestFree(old(regions), i, p)
                && regions == SetBit(old(regions), i, p, true)
                && r.value == Address(old(regions), i, p)
                && memory == old(memory)[r.value := seq(PAGE_WORDS, _ => 0)]
    {
      i, p := 0, 0;
      var k := lastRegion;
      while k < |regions|
        invariant regions == old(regions) && memory == old(memory)
        invariant lastRegion == old(lastRegion) && lastPage == old(lastPage) && lastRegion <= k
        invariant UsedBefore(regions, k, if k == lastRegion then lastPage else 0)
      {
        var start := if k == lastRegion then lastPage / WORD else 0;
        StartOfWord(regions, k, if k == lastRegion then lastPage else 0, start);
        var found, page := ScanRegion(k, start);
        if found {
          i, p := k, page;
          FoundLowest(regions, k, page, if k == lastRegion then lastPage else 0);
          r := Take(k, page);
          return;
        }
        RegionDone(regions, k, if k == lastRegion then lastPage else 0);
        k := k + 1;
      }
      r := Halt;
    }

    /** Marking a page, moving the hint and blanking the page. */
    method Take(k: nat, page: nat) returns (r: Outcome<nat>)
      requires Valid() && LowestFree(regions, k, page)
      modifies this
      ensures Valid()
      ensures r == Done(Address(old(regions), k, page))
      ensures regions == SetBit(old(regions), k, page, true)
      ensures memory == old(memory)[r.value := seq(PAGE_WORDS, _ => 0)]
    {
      lastRegion, lastPage := k, page;
      HintAfterAlloc(regions, k, page);
      SetKeeps(regions, k, page, true);
      var location := Address(regions, k, page);
      regions := SetBit(regions, k, page, true);
      var blank: seq<u64> := [];
      for n := 0 to PAGE_WORDS
        invariant blank == seq(n, _ => 0)
      {
        blank := blank + [0];
      }
      memory := memory[location := blank];
      r := Done(location);
    }

    /** The search loop of pg_free. */
    method FindClosest(address: nat) returns (found: bool, closest: nat)
      requires RegionsOk(regions)
      ensures found ==> IsClosest(regions, address, closest)
      ensures !found ==> forall i :: 0 <= i < |regions| ==> regions[i].base > address
    {
      found, closest := false, 0;
      var base := 0;
      for i := 0 to |regions|
        invariant !found ==> base == 0 && forall k :: 0 <= k < i ==> regions[k].base > address
        invariant found ==> closest < i && base == regions[closest].base && 0 < base <= address
        invariant found ==> forall k :: 0 <= k < i && regions[k].base <= address ==> regions[k].base <= base
        invariant found ==> forall k :: 0 <= k < closest && regions[k].base <= address ==> regions[k].base < base
      {
        assert RegionOk(regions[i]);
        if regions[i].base > base && address >= regions[i].base {
          found, closest, base := true, i, regions[i].base;
        }
      }
    }

    /** pg_free: the bit of the page that holds the address is cleared; it fails if
        no region starts at or below the address, if the closest one does not reach
        it, and if the page is not in use. */
    method Free(address: nat) returns (halted: bool, ghost k: nat)
      requires Valid()
      modifies this`regions, this`lastRegion, this`lastPage
      ensures Valid()
      ensures halted ==> regions == old(regions)
      ensures (forall i :: 0 <= i < |old(regions)| ==> old(regions)[i].base > address) ==> halted
      ensures (exists i :: 0 <= i < |old(regions)| && old(regions)[i].base <= address) ==>
                && IsClosest(old(regions), address, k)
                && var page := (address - old(regions)[k].base) / PAGE_SIZE;
                   && (!halted <==> page < old(regions)[k].pages && InUse(old(regions), k, page))
                   && (!halted ==> regions == SetBit(old(regions), k, page, false))
    {
      var found, closest := FindClosest(address);
      k := closest;
      if !found {
        return true, k;
      }
      assert RegionOk(regions[closest]);
      var page := (address - regions[closest].base) / PAGE_SIZE;
      if page >= regions[closest].pages {
        return true, k;
      }
      if !regions[closest].bits[page] {
        return true, k;
      }
      HintAfterFree(regions, lastRegion, lastPage, closest, page);
      SetKeeps(regions, closest, page, false);
      regions := SetBit(regions, closest, page, false);
      if lastRegion > closest || (lastPage > page && lastRegion == closest) {
        lastRegion, lastPage := closest, page;
      }
      halted := false;
    }
  }

  // ---- pieces of the loops ----

  lemma WordFits(r: Region, j: nat)
    requires RegionOk(r) && j < r.pages / WORD
    ensures j * WORD + WORD <= Scanned(r) <= |r.bits|
  {
  }

  lemma NextWord(j: nat)
    ensures (j + 1) * WORD == j * WORD + WORD
  {
  }

  lemma ScannedAll(r: Region, j: nat)
    requires j >= r.pages / WORD
    ensures Scanned(r) <= j * WORD
  {
  }

  lemma StartOfWord(rs: seq<Region>, k: nat, q: nat, word: nat)
    requires RegionsOk(rs) && k < |rs| && UsedBefore(rs, k, q) && word * WORD <= q
    ensures RegionOk(rs[k]) && forall p :: 0 <= p < word * WORD && p < Scanned(rs[k]) ==> rs[k].bits[p]
  {
    forall p | 0 <= p < word * WORD && p < Scanned(rs[k])
      ensures rs[k].bits[p]
    {
      assert IsScanned(rs, k, p) && Before(k, p, k, q);
    }
  }

  lemma FoundLowest(rs: seq<Region>, k: nat, page: nat, q: nat)
    requires RegionsOk(rs) && k < |rs| && page < Scanned(rs[k]) && !rs[k].bits[page]
    requires forall p :: 0 <= p < page ==> rs[k].bits[p]
    requires UsedBefore(rs, k, q)
    ensures LowestFree(rs, k, page)
  {
    forall i: nat, p: nat | IsScanned(rs, i, p) && Before(i, p, k, page)
      ensures InUse(rs, i, p)
    {
      if i < k {
        assert Before(i, p, k, q);
      }
    }
  }

  lemma RegionDone(rs: seq<Region>, k: nat, q: nat)
    requires RegionsOk(rs) && k < |rs| && UsedBefore(rs, k, q)
    requires forall p :: 0 <= p < Scanned(rs[k]) ==> rs[k].bits[p]
    ensures UsedBefore(rs, k + 1, 0)
  {
    forall i: nat, p: nat | IsScanned(rs, i, p) && Before(i, p, k + 1, 0)
      ensures InUse(rs, i, p)
    {
      if i < k {
        assert Before(i, p, k, q);
      }
    }
  }
}
